/**
 Quoting for the shell (ShellQuote of common/src/utils/StringUtils.cpp) against a lexer for the
 quoting rules of sections 2.2.1 and 2.2.2 of the POSIX.1-2017 Shell Command Language.
 */
module ShellWords {
  import opened Options
  import opened StringSearch

  // ---- the lexer ----

  datatype Quoting = Unquoted | AfterBackslash | InSingleQuotes

  /** The words that are complete, the word under way, and how the next character is quoted. */
  datatype Lexer =
    | Reading(words: seq<string>, word: Option<string>, quoting: Quoting)
    | Unsupported

  /** Characters with another meaning to the shell when they are not quoted. */
  predicate IsSpecial(c: char) {
    c in "\"$`|&;<>()*?[]#~=%!{}\n"
  }

  predicate IsBlank(c: char) {
    c == ' ' || c == '\t'
  }

  function Begun(word: Option<string>): string {
    if word.None? then "" else word.value
  }

  function Step(l: Lexer, c: char): Lexer {
    if l.Unsupported? then l else
      match l.quoting
      case InSingleQuotes =>
        if c == '\'' then l.(quoting := Unquoted) else l.(word := Some(Begun(l.word) + [c]))
      case AfterBackslash =>
        if c == '\n' then l.(quoting := Unquoted)
        else l.(word := Some(Begun(l.word) + [c]), quoting := Unquoted)
      case Unquoted =>
        if c == '\'' then l.(word := Some(Begun(l.word)), quoting := InSingleQuotes)
        else if c == '\\' then l.(quoting := AfterBackslash)
        else if IsBlank(c) then Reading(l.words + WordOf(l.word), None, Unquoted)
        else if IsSpecial(c) then Unsupported
        else l.(word := Some(Begun(l.word) + [c]))
  }

  function WordOf(word: Option<string>): seq<string> {
    if word.None? then [] else [word.value]
  }

  function Run(l: Lexer, s: string): Lexer
    decreases |s|
  {
    if s == "" then l else Run(Step(l, s[0]), s[1..])
  }

  /** The words of a command line; none when a quotation is left open. */
  function Words(s: string): Option<seq<string>> {
    var l := Run(Reading([], None, Unquoted), s);
    if l.Reading? && l.quoting == Unquoted then Some(l.words + WordOf(l.word)) else None
  }

  lemma {:induction false} RunInParts(l: Lexer, a: string, b: string)
    ensures Run(l, a + b) == Run(Run(l, a), b)
    decreases |a|
  {
    hide Step;
    if a == "" {
      assert a + b == b;
    } else {
      assert (a + b)[1..] == a[1..] + b;
      RunInParts(Step(l, a[0]), a[1..], b);
    }
  }

  /** Letters, digits and a few others mean themselves without quotes. */
  predicate IsPlain(c: char) {
    'a' <= c <= 'z' || 'A' <= c <= 'Z' || '0' <= c <= '9' || c in "-_./:@"
  }

  lemma PlainStep(words: seq<string>, word: Option<string>, c: char)
    requires IsPlain(c)
    ensures Step(Reading(words, word, Unquoted), c) == Reading(words, Some(Begun(word) + [c]), Unquoted)
  {
    PlainIsOrdinary(c);
    hide IsPlain, IsSpecial, IsBlank;
  }

  lemma PlainIsOrdinary(c: char)
    requires IsPlain(c)
    ensures !IsSpecial(c) && !IsBlank(c) && c != '\'' && c != '\\'
  {
  }

  lemma {:induction false} PlainAddsItself(words: seq<string>, w: string, s: string)
    requires forall k :: 0 <= k < |s| ==> IsPlain(s[k])
    ensures Run(Reading(words, Some(w), Unquoted), s) == Reading(words, Some(w + s), Unquoted)
    decreases |s|
  {
    hide Step, IsPlain;
    if s == "" {
      assert w + s == w;
    } else {
      PlainStep(words, Some(w), s[0]);
      PlainAddsItself(words, w + [s[0]], s[1..]);
      assert w + [s[0]] + s[1..] == w + s;
    }
  }

  /** A word of plain characters is itself; the quoting below is for all others. */
  lemma PlainIsOneWord(s: string)
    requires s != "" && forall k :: 0 <= k < |s| ==> IsPlain(s[k])
    ensures Words(s) == Some([s])
  {
    hide Step, IsPlain;
    PlainStep([], None, s[0]);
    PlainAddsItself([], [s[0]], s[1..]);
    assert "" + [s[0]] == [s[0]] && [s[0]] + s[1..] == s;
    assert [] + [s] == [s];
  }

  /** Operators, expansions and patterns are no part of a word unless they are quoted. */
  lemma OthersAreRefused(words: seq<string>, word: Option<string>, c: char)
    requires c in "$`\"|&;<>()*?[]#~\n"
    ensures Step(Reading(words, word, Unquoted), c) == Unsupported
  {
  }

  // ---- quoting ----

  /** Closes the quotation, adds an escaped quote and opens the quotation again. */
  const QUOTE_IN_QUOTES := "'\\''"

  method ShellQuote(str: string) returns (r: string)
    ensures r == Quoted(str)
  {
    var body := Replace(str, "'", QUOTE_IN_QUOTES);
    r := "'" + body + "'";
  }

  function Quoted(s: string): string {
    "'" + Replaced(s, "'", QUOTE_IN_QUOTES) + "'"
  }

  lemma ReplaceFirstCharacter(s: string, c: char, to: string)
    requires s != ""
    ensures Replaced(s, [c], to) == (if s[0] == c then to else [s[0]]) + Replaced(s[1..], [c], to)
  {
    hide Replaced;
    assert s[0..1] == [s[0]];
    if s[0] == c {
      ReplaceStep(s, [c], to);
      assert s[..0] + to == to;
    } else {
      PassOver(s, [c], to);
    }
  }

  lemma ReadQuoteInQuotes(words: seq<string>, w: string)
    ensures Run(Reading(words, Some(w), InSingleQuotes), QUOTE_IN_QUOTES)
         == Reading(words, Some(w + "'"), InSingleQuotes)
  {
    var l := Reading(words, Some(w), InSingleQuotes);
    var l1 := Step(l, '\'');
    var l2 := Step(l1, '\\');
    var l3 := Step(l2, '\'');
    var l4 := Step(l3, '\'');
    assert Run(l4, "") == l4;
    assert Run(l3, "'") == l4;
    assert Run(l2, "''") == l4 by { assert "''"[1..] == "'"; }
    assert Run(l1, "\\''") == l4 by { assert "\\''"[1..] == "''"; }
    assert QUOTE_IN_QUOTES[1..] == "\\''";
  }

  /** The body of a quotation adds the quoted string to the word, whatever its characters. */
  lemma {:induction false} ReadBody(words: seq<string>, w: string, s: string)
    ensures Run(Reading(words, Some(w), InSingleQuotes), Replaced(s, "'", QUOTE_IN_QUOTES))
         == Reading(words, Some(w + s), InSingleQuotes)
    decreases |s|
  {
    hide Replaced;
    var l := Reading(words, Some(w), InSingleQuotes);
    if s == "" {
      ReplacedNothing();
      assert w + s == w;
    } else {
      var rest := Replaced(s[1..], "'", QUOTE_IN_QUOTES);
      ReplaceFirstCharacter(s, '\'', QUOTE_IN_QUOTES);
      ReadBody(words, w + [s[0]], s[1..]);
      assert w + [s[0]] + s[1..] == w + s;
      if s[0] == '\'' {
        ReadQuoteInQuotes(words, w);
        RunInParts(l, QUOTE_IN_QUOTES, rest);
      } else {
        assert ([s[0]] + rest)[1..] == rest;
        assert Step(l, s[0]) == Reading(words, Some(w + [s[0]]), InSingleQuotes);
      }
    }
  }

  lemma ReplacedNothing()
    ensures Replaced("", "'", QUOTE_IN_QUOTES) == ""
  {
    NoMatchLeft("", "'", QUOTE_IN_QUOTES);
  }

  /** In any unquoted place of a command line a quoted string adds itself to the word under way. */
  lemma QuotedAddsItself(words: seq<string>, word: Option<string>, s: string)
    ensures Run(Reading(words, word, Unquoted), Quoted(s)) == Reading(words, Some(Begun(word) + s), Unquoted)
  {
    hide Replaced;
    var body := Replaced(s, "'", QUOTE_IN_QUOTES);
    var l := Reading(words, word, Unquoted);
    var open := Reading(words, Some(Begun(word)), InSingleQuotes);
    var read := Reading(words, Some(Begun(word) + s), InSingleQuotes);
    assert Run(l, "'") == open by { assert Run(open, "") == open; }
    assert Run(read, "'") == Reading(words, Some(Begun(word) + s), Unquoted) by {
      assert Run(Step(read, '\''), "") == Step(read, '\'');
    }
    hide Run, Step;
    ReadBody(words, Begun(word), s);
    RunInParts(l, "'", body);
    RunInParts(l, "'" + body, "'");
  }

  /** A quoted string is one word: the string itself. */
  lemma QuotedIsOneWord(s: string)
    ensures Words(Quoted(s)) == Some([s])
  {
    hide Run, Quoted;
    QuotedAddsItself([], None, s);
    assert "" + s == s && [] + [s] == [s];
  }

  function QuotedAll(args: seq<string>): string {
    if args == [] then ""
    else if |args| == 1 then Quoted(args[0])
    else Quoted(args[0]) + " " + QuotedAll(args[1..])
  }

  lemma {:induction false} RunArguments(words: seq<string>, args: seq<string>)
    requires args != []
    ensures Run(Reading(words, None, Unquoted), QuotedAll(args))
         == Reading(words + args[..|args| - 1], Some(args[|args| - 1]), Unquoted)
    decreases |args|
  {
    hide Quoted, Step;
    var l := Reading(words, None, Unquoted);
    QuotedAddsItself(words, None, args[0]);
    assert "" + args[0] == args[0];
    if |args| > 1 {
      var rest := QuotedAll(args[1..]);
      RunInParts(l, Quoted(args[0]) + " ", rest);
      RunInParts(l, Quoted(args[0]), " ");
      BlankEndsWord(words, args[0]);
      RunArguments(words + [args[0]], args[1..]);
      assert words + [args[0]] + args[1..][..|args| - 2] == words + args[..|args| - 1];
    } else {
      assert words + args[..0] == words;
    }
  }

  lemma BlankEndsWord(words: seq<string>, w: string)
    ensures Run(Reading(words, Some(w), Unquoted), " ") == Reading(words + [w], None, Unquoted)
  {
    assert Run(Step(Reading(words, Some(w), Unquoted), ' '), "") == Reading(words + [w], None, Unquoted);
  }

  /** A command line of quoted arguments has exactly those arguments as its words. */
  lemma ArgumentsComeBack(args: seq<string>)
    ensures Words(QuotedAll(args)) == Some(args)
  {
    hide Step;
    if args == [] {
      var l := Reading([], None, Unquoted);
      assert QuotedAll([]) == "" && Run(l, "") == l;
      assert Words("") == Some([] + WordOf(None)) && WordOf(None) == [];
    } else {
      RunArguments([], args);
      assert [] + args[..|args| - 1] == args[..|args| - 1];
      assert args[..|args| - 1] + [args[|args| - 1]] == args;
    }
  }
}
