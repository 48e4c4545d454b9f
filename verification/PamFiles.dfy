/**
 Adding an entry to a PAM configuration file and removing it again, line by line (AddEntryToFile and
 RemoveEntryFromFile of common_desktop/src/installer/helpers/PAMHelper.cpp).
 */
module PamFiles {
  import opened StringSearch

  const HEADER := "#%PAM-1.0"

  function Lines(s: string): (ls: seq<string>)
    ensures ls != []
  {
    Split(s, "\n")
  }

  function Unlines(ls: seq<string>): string {
    if ls == [] then "" else Unlines(ls[..|ls| - 1]) + ls[|ls| - 1] + "\n"
  }

  predicate EndsWithTwo(s: string) {
    |s| >= 2 && s[|s| - 1] == '\n' && s[|s| - 2] == '\n'
  }

  /** A run of newlines at the end becomes one newline. */
  function Collapse(s: string): string {
    if EndsWithTwo(s) then Collapse(s[..|s| - 1]) else s
  }

  /** The lines, each header followed by the entry when insert says so. */
  function AddToLines(ls: seq<string>, entry: string, insert: bool): string {
    if ls == [] then "" else
      var last := ls[|ls| - 1];
      AddToLines(ls[..|ls| - 1], entry, insert) + last + "\n" + (if insert && last == HEADER then entry + "\n" else "")
  }

  /** The file with the entry after every header line, or after a new header in front when it has none. */
  function AddEntry(file: string, entry: string): string {
    var hasBegin := Contains(file, HEADER + "\n");
    Collapse((if hasBegin then "" else HEADER + "\n" + (entry + "\n")) + AddToLines(Lines(file), entry, hasBegin))
  }

  /** The lines that are none of those to be removed. */
  function Keep(ls: seq<string>, entries: seq<string>): (kept: seq<string>) {
    if ls == [] then [] else
      Keep(ls[..|ls| - 1], entries) + (if ls[|ls| - 1] in entries then [] else [ls[|ls| - 1]])
  }

  function RemoveEntry(file: string, entry: string): string {
    Collapse(Unlines(Keep(Lines(file), Lines(entry))))
  }

  // ---- the program ----

  method CollapseNewlines(s: string) returns (r: string)
    ensures r == Collapse(s)
  {
    r := s;
    while EndsWithTwo(r)
      invariant Collapse(r) == Collapse(s)
      decreases |r|
    {
      r := r[..|r| - 1];
    }
  }

  lemma NextLine(ls: seq<string>, k: nat, entry: string, insert: bool)
    requires k < |ls|
    ensures AddToLines(ls[..k + 1], entry, insert)
         == AddToLines(ls[..k], entry, insert) + ls[k] + "\n" + (if insert && ls[k] == HEADER then entry + "\n" else "")
  {
    assert ls[..k + 1][..k] == ls[..k];
  }

  method AddEntryToFile(fileStr: string, entry: string) returns (resultStr: string)
    ensures resultStr == AddEntry(fileStr, entry)
  {
    hide Contains, Split, Collapse, AddToLines;
    resultStr := "";
    var hasBegin := Contains(fileStr, HEADER + "\n");
    if !hasBegin {
      resultStr := HEADER + "\n" + (entry + "\n");
    }
    ghost var start := resultStr;
    var lines := SplitString(fileStr, "\n");
    NoLines(entry, hasBegin);
    for k := 0 to |lines|
      invariant resultStr == start + AddToLines(lines[..k], entry, hasBegin)
    {
      NextLine(lines, k, entry, hasBegin);
      ghost var before := AddToLines(lines[..k], entry, hasBegin);
      if lines[k] == HEADER && hasBegin {
        resultStr := resultStr + (lines[k] + "\n");
        resultStr := resultStr + (entry + "\n");
        assert resultStr == start + (before + lines[k] + "\n" + (entry + "\n"));
      } else {
        resultStr := resultStr + (lines[k] + "\n");
        assert resultStr == start + (before + lines[k] + "\n" + "");
      }
    }
    assert lines[..|lines|] == lines;
    resultStr := CollapseNewlines(resultStr);
  }

  lemma NoLines(entry: string, insert: bool)
    ensures AddToLines([], entry, insert) == ""
  {
  }

  lemma NextKept(ls: seq<string>, k: nat, entries: seq<string>)
    requires k < |ls|
    ensures Keep(ls[..k + 1], entries) == Keep(ls[..k], entries) + (if ls[k] in entries then [] else [ls[k]])
    ensures Unlines(Keep(ls[..k + 1], entries))
         == Unlines(Keep(ls[..k], entries)) + (if ls[k] in entries then "" else ls[k] + "\n")
  {
    assert ls[..k + 1][..k] == ls[..k];
    hide Keep;
    var kept := Keep(ls[..k], entries);
    assert (kept + [ls[k]])[..|kept|] == kept && kept + [] == kept;
    assert Unlines(kept) + ls[k] + "\n" == Unlines(kept) + (ls[k] + "\n");
  }

  method RemoveEntryFromFile(fileStr: string, entry: string) returns (resultStr: string)
    ensures resultStr == RemoveEntry(fileStr, entry)
  {
    hide Split, Collapse;
    var entries := SplitString(entry, "\n");
    resultStr := "";
    var lines := SplitString(fileStr, "\n");
    for k := 0 to |lines|
      invariant resultStr == Unlines(Keep(lines[..k], entries))
    {
      NextKept(lines, k, entries);
      var shouldRemove := false;
      for j := 0 to |entries|
        invariant shouldRemove <==> lines[k] in entries[..j]
      {
        assert entries[..j + 1] == entries[..j] + [entries[j]];
        if lines[k] == entries[j] {
          shouldRemove := true;
          break;
        }
      }
      assert shouldRemove <==> lines[k] in entries;
      if !shouldRemove {
        resultStr := resultStr + (lines[k] + "\n");
      }
    }
    assert lines[..|lines|] == lines;
    resultStr := CollapseNewlines(resultStr);
  }

  // ---- files as lines ----

  /** Lines as they come out of splitting: no newline in them. */
  predicate Clean(ls: seq<string>) {
    forall k :: 0 <= k < |ls| ==> '\n' !in ls[k]
  }

  lemma {:induction false} JoinOneMore(ls: seq<string>, x: string)
    ensures Join(ls + [x], "\n") == Unlines(ls) + x
  {
    if ls == [] {
      assert [] + [x] == [x];
    } else {
      var k := |ls| - 1;
      JoinOneMore(ls[..k], ls[k]);
      assert ls[..k] + [ls[k]] == ls;
      JoinAtEnd(ls, x);
      assert Unlines(ls) == Join(ls, "\n") + "\n";
    }
  }

  lemma {:induction false} JoinAtEnd(ls: seq<string>, x: string)
    requires ls != []
    ensures Join(ls + [x], "\n") == Join(ls, "\n") + "\n" + x
    decreases |ls|
  {
    assert (ls + [x])[1..] == ls[1..] + [x];
    if |ls| > 1 {
      JoinAtEnd(ls[1..], x);
    } else {
      assert ls[1..] + [x] == [x];
    }
  }

  lemma LinesOfUnlines(ls: seq<string>)
    requires Clean(ls)
    ensures Lines(Unlines(ls)) == ls + [""]
  {
    hide Split;
    JoinOneMore(ls, "");
    assert Unlines(ls) + "" == Unlines(ls);
    SplitJoin(ls + [""], '\n');
  }

  lemma UnlinesOfLines(s: string)
    ensures Unlines(Lines(s)) == s + "\n" && Clean(Lines(s))
  {
    hide Split, Join;
    var ls := Lines(s);
    JoinSplit(s, "\n");
    PiecesAreFree(s, "\n");
    var k := |ls| - 1;
    JoinOneMore(ls[..k], ls[k]);
    assert ls[..k] + [ls[k]] == ls;
    forall j | 0 <= j < |ls| ensures '\n' !in ls[j] {
      NoneOf(ls[j]);
    }
  }

  lemma NoneOf(s: string)
    ensures !Contains(s, "\n") ==> '\n' !in s
  {
    if '\n' in s {
      var i :| 0 <= i < |s| && s[i] == '\n';
      assert s[i..i + 1] == "\n";
      assert MatchAt(s, "\n", i);
    }
  }

  /** The lines without the empty ones at the end, but never without all. */
  function Trim(ls: seq<string>): (t: seq<string>)
    ensures |t| <= |ls| && t == ls[..|t|]
  {
    if |ls| >= 2 && ls[|ls| - 1] == "" then Trim(ls[..|ls| - 1]) else ls
  }

  lemma UnlinesMore(ls: seq<string>, x: string)
    ensures Unlines(ls + [x]) == Unlines(ls) + x + "\n"
  {
    assert (ls + [x])[..|ls|] == ls;
  }

  lemma OneNewline(s: string, last: string)
    requires last != "" && '\n' !in last
    ensures Collapse(s + last + "\n") == s + last + "\n"
  {
    assert (s + last)[|s + last| - 1] == last[|last| - 1];
  }

  lemma TwoNewlines(s: string)
    ensures Collapse(s + "\n" + "" + "\n") == Collapse(s + "\n")
  {
    var t := s + "\n" + "" + "\n";
    assert t[..|t| - 1] == s + "\n";
  }

  lemma {:induction false} CollapseUnlines(ls: seq<string>)
    requires Clean(ls)
    ensures Collapse(Unlines(ls)) == Unlines(Trim(ls))
  {
    hide Unlines, Collapse, Trim;
    if ls == [] {
      NothingCollapses();
    } else {
      var k := |ls| - 1;
      var before, last := ls[..k], ls[k];
      UnlinesMore(before, last);
      TrimMore(before, last);
      assert ls == before + [last];
      if last != "" {
        OneNewline(Unlines(before), last);
      } else if k > 0 {
        CollapseUnlines(before);
        UnlinesMore(before[..k - 1], before[k - 1]);
        assert before == before[..k - 1] + [before[k - 1]];
        TwoNewlines(Unlines(before[..k - 1]) + before[k - 1]);
      } else {
        NothingCollapses();
      }
    }
  }

  lemma TrimMore(before: seq<string>, last: string)
    ensures Trim(before + [last]) == if before != [] && last == "" then Trim(before) else before + [last]
  {
    assert (before + [last])[..|before|] == before;
  }

  lemma NothingCollapses()
    ensures Trim([]) == [] && Unlines([]) == "" && Collapse("") == "" && Collapse("" + "" + "\n") == "\n"
  {
  }

  lemma {:induction false} UnlinesParts(a: seq<string>, b: seq<string>)
    ensures Unlines(a + b) == Unlines(a) + Unlines(b)
  {
    hide Unlines;
    if b == [] {
      NothingCollapses();
      assert a + b == a;
    } else {
      var k := |b| - 1;
      UnlinesParts(a, b[..k]);
      UnlinesMore(a + b[..k], b[k]);
      UnlinesMore(b[..k], b[k]);
      assert a + b == (a + b[..k]) + [b[k]] && b == b[..k] + [b[k]];
    }
  }

  /** The lines of AddToLines. */
  function Inserted(ls: seq<string>, entries: seq<string>, insert: bool): seq<string> {
    if ls == [] then [] else
      var last := ls[|ls| - 1];
      Inserted(ls[..|ls| - 1], entries, insert) + [last] + (if insert && last == HEADER then entries else [])
  }

  lemma {:induction false} AddedLines(ls: seq<string>, entry: string, insert: bool)
    ensures AddToLines(ls, entry, insert) == Unlines(Inserted(ls, Lines(entry), insert))
  {
    hide Split;
    if ls != [] {
      var k := |ls| - 1;
      AddedLines(ls[..k], entry, insert);
      UnlinesOfLines(entry);
      var before := Inserted(ls[..k], Lines(entry), insert);
      assert (before + [ls[k]])[..|before|] == before;
      UnlinesParts(before + [ls[k]], if insert && ls[k] == HEADER then Lines(entry) else []);
    }
  }

  /** The lines that AddEntry writes, before the empty ones at the end go. */
  function WithEntry(file: string, entry: string): seq<string> {
    var hasBegin := Contains(file, HEADER + "\n");
    (if hasBegin then [] else [HEADER] + Lines(entry)) + Inserted(Lines(file), Lines(entry), hasBegin)
  }

  lemma {:induction false} InsertedIsClean(ls: seq<string>, entries: seq<string>, insert: bool)
    requires Clean(ls) && Clean(entries)
    ensures Clean(Inserted(ls, entries, insert))
  {
    if ls != [] {
      InsertedIsClean(ls[..|ls| - 1], entries, insert);
    }
  }

  lemma HeaderIsClean()
    ensures Clean([HEADER]) && Unlines([HEADER]) == HEADER + "\n"
  {
    assert Unlines([]) == "";
    assert "" + HEADER == HEADER;
  }

  lemma AddEntryLines(file: string, entry: string)
    ensures Clean(WithEntry(file, entry)) && AddEntry(file, entry) == Unlines(Trim(WithEntry(file, entry)))
  {
    hide Split, Contains, Inserted, AddToLines, Collapse, Trim, Unlines;
    var hasBegin := Contains(file, HEADER + "\n");
    UnlinesOfLines(file);
    UnlinesOfLines(entry);
    HeaderIsClean();
    InsertedIsClean(Lines(file), Lines(entry), hasBegin);
    AddedLines(Lines(file), entry, hasBegin);
    var start := if hasBegin then [] else [HEADER] + Lines(entry);
    UnlinesParts([HEADER], Lines(entry));
    UnlinesParts(start, Inserted(Lines(file), Lines(entry), hasBegin));
    UnlinesOfNone();
    CollapseUnlines(WithEntry(file, entry));
  }

  lemma UnlinesOfNone()
    ensures Unlines([]) == ""
  {
  }

  lemma TrimIsClean(ls: seq<string>)
    requires Clean(ls)
    ensures Clean(Trim(ls))
  {
  }

  // ---- removing what was added ----

  lemma {:induction false} KeepParts(a: seq<string>, b: seq<string>, entries: seq<string>)
    ensures Keep(a + b, entries) == Keep(a, entries) + Keep(b, entries)
  {
    if b == [] {
      assert a + b == a;
    } else {
      var k := |b| - 1;
      KeepParts(a, b[..k], entries);
      assert (a + b)[..|a| + k] == a + b[..k];
    }
  }

  predicate Apart(ls: seq<string>, entries: seq<string>) {
    forall k :: 0 <= k < |ls| ==> ls[k] !in entries
  }

  lemma {:induction false} KeepAll(ls: seq<string>, entries: seq<string>)
    requires Apart(ls, entries)
    ensures Keep(ls, entries) == ls
  {
    if ls != [] {
      KeepAll(ls[..|ls| - 1], entries);
    }
  }

  lemma {:induction false} KeepNone(ls: seq<string>, entries: seq<string>)
    requires forall k :: 0 <= k < |ls| ==> ls[k] in entries
    ensures Keep(ls, entries) == []
  {
    if ls != [] {
      KeepNone(ls[..|ls| - 1], entries);
    }
  }

  lemma {:induction false} KeepInserted(ls: seq<string>, entries: seq<string>, insert: bool)
    requires Apart(ls, entries)
    ensures Keep(Inserted(ls, entries, insert), entries) == ls
  {
    hide Keep;
    if ls == [] {
      KeepAll([], entries);
    } else {
      var k := |ls| - 1;
      KeepInserted(ls[..k], entries, insert);
      var before := Inserted(ls[..k], entries, insert);
      var more := if insert && ls[k] == HEADER then entries else [];
      KeepThree(before, ls[k], more, entries);
      assert ls[..k] + [ls[k]] == ls;
    }
  }

  lemma KeepThree(a: seq<string>, line: string, b: seq<string>, entries: seq<string>)
    requires line !in entries && (b == [] || b == entries)
    ensures Keep(a + [line] + b, entries) == Keep(a, entries) + [line]
  {
    hide Keep;
    KeepParts(a + [line], b, entries);
    KeepParts(a, [line], entries);
    KeepAll([line], entries);
    KeepNone(b, entries);
  }

  lemma {:induction false} KeepOfTrimmed(ls: seq<string>, entries: seq<string>)
    ensures "" in entries ==> Keep(Trim(ls), entries) == Keep(ls, entries)
    ensures "" !in entries ==> Trim(Keep(Trim(ls), entries) + [""]) == Trim(Keep(ls, entries) + [""])
  {
    if |ls| >= 2 && ls[|ls| - 1] == "" {
      var before := ls[..|ls| - 1];
      KeepOfTrimmed(before, entries);
      if "" !in entries {
        var kept := Keep(before, entries);
        assert Keep(ls, entries) == kept + [""];
        assert (kept + [""] + [""])[..|kept| + 1] == kept + [""];
      }
    }
  }

  /** Removing from the lines that are left after trimming, and from all lines, comes to the same. */
  lemma KeepTrimmed(ls: seq<string>, entries: seq<string>)
    requires Keep(ls, entries) != []
    ensures Trim(Keep(Trim(ls) + [""], entries)) == Trim(Keep(ls, entries))
  {
    KeepOfTrimmed(ls, entries);
    KeepParts(Trim(ls), [""], entries);
    var kept := Keep(ls, entries);
    if "" in entries {
      KeepNone([""], entries);
      assert Keep(ls, entries) + [] == Keep(ls, entries);
    } else {
      KeepAll([""], entries);
      assert (kept + [""])[..|kept|] == kept;
    }
  }

  /** What removing makes of a file to which the entry was added. */
  lemma RemoveAfterAdd(file: string, entry: string)
    requires Apart(Lines(file), Lines(entry)) && HEADER !in Lines(entry)
    ensures RemoveEntry(AddEntry(file, entry), entry)
         == Unlines(Trim((if Contains(file, HEADER + "\n") then [] else [HEADER]) + Lines(file)))
  {
    hide Split, Contains, Inserted, Keep, Collapse, Trim, Unlines, AddEntry;
    var hasBegin := Contains(file, HEADER + "\n");
    var entries, ls := Lines(entry), WithEntry(file, entry);
    AddEntryLines(file, entry);
    TrimIsClean(ls);
    LinesOfUnlines(Trim(ls));
    KeepWithEntry(file, entry);
    KeepTrimmed(ls, entries);
    KeepIsClean(Trim(ls) + [""], entries);
    CollapseUnlines(Keep(Trim(ls) + [""], entries));
  }

  lemma KeepWithEntry(file: string, entry: string)
    requires Apart(Lines(file), Lines(entry)) && HEADER !in Lines(entry)
    ensures Keep(WithEntry(file, entry), Lines(entry))
         == (if Contains(file, HEADER + "\n") then [] else [HEADER]) + Lines(file)
  {
    hide Split, Contains, Inserted, Keep;
    var hasBegin := Contains(file, HEADER + "\n");
    var entries := Lines(entry);
    KeepInserted(Lines(file), entries, hasBegin);
    KeepAll([HEADER], entries);
    KeepNone(entries, entries);
    KeepParts([HEADER], entries, entries);
    KeepAll([], entries);
    assert [HEADER] + [] == [HEADER];
    KeepParts(if hasBegin then [] else [HEADER] + entries, Inserted(Lines(file), entries, hasBegin), entries);
  }

  lemma {:induction false} KeepIsClean(ls: seq<string>, entries: seq<string>)
    requires Clean(ls)
    ensures Clean(Keep(ls, entries))
  {
    if ls != [] {
      KeepIsClean(ls[..|ls| - 1], entries);
    }
  }

  lemma TrimWithHeader(ls: seq<string>)
    requires Clean(ls) && ls != []
    ensures Unlines(Trim([HEADER] + ls)) != Unlines(Trim(ls))
  {
    if Trim(ls) == [""] {
      OnlyEmpty(ls);
      TrimAfter(HEADER, ls);
      HeaderIsClean();
      assert Unlines([""]) == "\n" by { assert Unlines([]) == ""; assert "" + "" == ""; }
    } else {
      TrimAfter(HEADER, ls);
      UnlinesParts([HEADER], Trim(ls));
      HeaderIsClean();
    }
  }

  /** Trimming below a line that is not empty. */
  lemma {:induction false} TrimAfter(first: string, ls: seq<string>)
    requires first != "" && ls != []
    ensures Trim([first] + ls) == if Trim(ls) == [""] then [first] else [first] + Trim(ls)
  {
    var k := |ls| - 1;
    assert ([first] + ls)[..|ls|] == [first] + ls[..k];
    if k > 0 && ls[k] == "" {
      TrimAfter(first, ls[..k]);
    } else if ls[k] == "" {
      assert [first] + ls[..0] == [first];
    }
  }

  lemma OnlyEmpty(ls: seq<string>)
    requires ls != []
    ensures Trim(ls) != []
  {
  }

  /**
   Removing an entry that was added restores the file, with one newline at its end, exactly when the
   file contains the header and a newline; otherwise the header that was put in front stays.
   */
  lemma RemoveUndoesAdd(file: string, entry: string)
    requires Apart(Lines(file), Lines(entry)) && HEADER !in Lines(entry)
    ensures RemoveEntry(AddEntry(file, entry), entry) == Collapse(file + "\n") <==> Contains(file, HEADER + "\n")
  {
    hide Split, Contains, Collapse, Trim, Unlines, AddEntry, RemoveEntry;
    RemoveAfterAdd(file, entry);
    UnlinesOfLines(file);
    CollapseUnlines(Lines(file));
    TrimWithHeader(Lines(file));
    assert [] + Lines(file) == Lines(file);
  }

  // ---- whether the entry gets in ----

  lemma {:induction false} TrimKeepsLines(ls: seq<string>, x: string)
    ensures x != "" ==> (x in Trim(ls) <==> x in ls)
  {
    if |ls| >= 2 && ls[|ls| - 1] == "" {
      TrimKeepsLines(ls[..|ls| - 1], x);
      assert ls == ls[..|ls| - 1] + [""];
    }
  }

  lemma {:induction false} InsertedLine(ls: seq<string>, entries: seq<string>, insert: bool, x: string)
    ensures x in Inserted(ls, entries, insert) <==> x in ls || (insert && HEADER in ls && x in entries)
  {
    if ls != [] {
      var k := |ls| - 1;
      InsertedLine(ls[..k], entries, insert, x);
      assert ls == ls[..k] + [ls[k]];
    }
  }

  /** A line of the result is a line of the file, a line of the entry, or the header. */
  lemma LinesAfterAdd(file: string, entry: string, x: string)
    requires x != ""
    ensures x in Lines(AddEntry(file, entry)) <==>
            || x in Lines(file)
            || (x in Lines(entry) && (!Contains(file, HEADER + "\n") || HEADER in Lines(file)))
            || (x == HEADER && !Contains(file, HEADER + "\n"))
  {
    hide Split, Contains, Inserted, Trim, Unlines, AddEntry;
    var ls := WithEntry(file, entry);
    AddEntryLines(file, entry);
    TrimIsClean(ls);
    LinesOfUnlines(Trim(ls));
    TrimKeepsLines(ls, x);
    InsertedLine(Lines(file), Lines(entry), Contains(file, HEADER + "\n"), x);
  }

  /** A new line of the entry gets into the file unless the header only ends a longer line. */
  lemma EntryGetsIn(file: string, entry: string, x: string)
    requires x in Lines(entry) && x != "" && x != HEADER && x !in Lines(file)
    ensures x in Lines(AddEntry(file, entry)) <==> !Contains(file, HEADER + "\n") || HEADER in Lines(file)
  {
    hide Split, Contains, AddEntry;
    LinesAfterAdd(file, entry, x);
  }

  /** With anything before the header on its line, adding an entry leaves it out. */
  lemma IndentedHeader(before: string, entry: string, x: string)
    requires before != "" && '\n' !in before
    requires x in Lines(entry) && x != "" && x != HEADER && x != before + HEADER
    ensures x !in Lines(AddEntry(before + HEADER + "\n", entry))
  {
    hide Split, AddEntry;
    var file := before + HEADER + "\n";
    assert Unlines([]) == "" && "" + (before + HEADER) == before + HEADER;
    assert Unlines([before + HEADER]) == file;
    LinesOfUnlines([before + HEADER]);
    assert file[|before|..|before| + |HEADER| + 1] == HEADER + "\n";
    assert MatchAt(file, HEADER + "\n", |before|);
    EntryGetsIn(file, entry, x);
  }

  // ---- texts within a line ----

  lemma MatchCovers(s: string, m: string, i: int, p: int)
    requires MatchAt(s, m, i) && 0 <= p < |s|
    ensures i <= p < i + |m| ==> s[p] in m
  {
    if i <= p < i + |m| {
      assert m[p - i] == s[p];
    }
  }

  lemma UnlinesEnd(ls: seq<string>)
    ensures ls == [] ==> Unlines(ls) == ""
    ensures ls != [] ==> |Unlines(ls)| > 0 && Unlines(ls)[|Unlines(ls)| - 1] == '\n'
  {
  }

  lemma {:induction false} WithinALine(ls: seq<string>, m: string) returns (k: nat)
    requires m != "" && '\n' !in m && Contains(Unlines(ls), m)
    ensures k < |ls| && Contains(ls[k], m)
  {
    var last := |ls| - 1;
    var before := Unlines(ls[..last]);
    var s := Unlines(ls);
    assert s == before + ls[last] + "\n";
    var i :| 0 <= i <= |s| && MatchAt(s, m, i);
    hide Unlines;
    UnlinesEnd(ls[..last]);
    MatchCovers(s, m, i, |s| - 1);
    if i + |m| <= |before| {
      assert before[i..i + |m|] == s[i..i + |m|];
      assert MatchAt(before, m, i);
      k := WithinALine(ls[..last], m);
    } else {
      if before != "" {
        MatchCovers(s, m, i, |before| - 1);
      }
      var j := i - |before|;
      assert ls[last][j..j + |m|] == s[i..i + |m|];
      assert MatchAt(ls[last], m, j);
      k := last;
    }
  }

  lemma {:induction false} InTheWhole(ls: seq<string>, m: string, k: nat)
    requires k < |ls| && Contains(ls[k], m)
    ensures Contains(Unlines(ls), m)
  {
    var last := |ls| - 1;
    var before := Unlines(ls[..last]);
    var s := Unlines(ls);
    var part, at := if k < last then before else ls[k], if k < last then 0 else |before|;
    if k < last {
      InTheWhole(ls[..last], m, k);
    }
    var i :| 0 <= i <= |part| && MatchAt(part, m, i);
    assert s[at + i..at + i + |m|] == part[i..i + |m|];
    assert MatchAt(s, m, at + i);
  }
}
