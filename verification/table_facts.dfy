/**
  What particular rules of the translation table do to particular lines:
  whole-word matching, the order of `divide` and `integer divide`, the two
  `output` rules and the `repeat` header.
 */
module TableFacts {
  import opened Text
  import opened Rewrite
  import opened PatternFacts
  import opened KeywordFacts
  import opened Translator

  // ---------------------------------------------------------------------------
  // Whole words
  // ---------------------------------------------------------------------------

  /** Inside a text made only of word characters, `\bw\b` can match only the whole text. */
  lemma WholeWordInWord(s: string, w: string, i: nat)
    requires |w| > 0 && AllWordChars(s) && WholeWordAt(s, w, i)
    ensures i == 0 && s == w
  {
    assert i + |w| <= |s|;
  }

  /** A keyword rule leaves a single word other than its keyword unchanged, even when the keyword occurs inside it. */
  lemma KeywordInsideWordKept(w: Word, x: string, s: string)
    requires AllWordChars(s) && s != w
    ensures Sub(KeywordRule(w, x), s) == s
  {
    forall i
      ensures !WholeWordAt(s, w, i)
    {
      if WholeWordAt(s, w, i) {
        WholeWordInWord(s, w, i);
      }
    }
    SubWithoutLead(KeywordRule(w, x), s);
  }

  /** `add` inside `address` or `padding` is not replaced by `+`. */
  lemma AddInsideWordsKept()
    ensures Sub(AddRule, "address") == "address"
    ensures Sub(AddRule, "padding") == "padding"
  {
    KeywordInsideWordKept("add", "+", "address");
    KeywordInsideWordKept("add", "+", "padding");
  }

  /** `w` between non-word characters (or the ends of the text) stands as a whole word. */
  lemma DelimitedWholeWord(w: Word, a: string, b: string)
    requires AllWordChars(w)
    requires |a| == 0 || !IsWordChar(a[|a| - 1])
    requires |b| == 0 || !IsWordChar(b[0])
    ensures WholeWordAt(a + w + b, w, |a|)
  {
    var s := a + w + b;
    var e := |a| + |w|;
    assert s[|a|..e] == w;
    assert s[|a|] == w[0] && s[e - 1] == w[|w| - 1];
    if |a| > 0 {
      assert s[|a| - 1] == a[|a| - 1];
    }
    if e < |s| {
      assert s[e] == b[0];
    }
  }

  /**
    A keyword rule applied to `a + w + b`, where neither `a` nor `b` holds the
    first letter of `w` and the occurrence is delimited by non-word characters,
    replaces exactly that occurrence.
   */
  lemma KeywordBetween(w: Word, x: string, a: string, b: string)
    requires AllWordChars(w) && w[0] !in a && w[0] !in b
    requires |a| == 0 || !IsWordChar(a[|a| - 1])
    requires |b| == 0 || !IsWordChar(b[0])
    ensures Sub(KeywordRule(w, x), a + w + b) == a + x + b
  {
    var s := a + w + b;
    var e := |a| + |w|;
    assert s[0..|a|] == a;
    assert s[e..|s|] == b;
    SubFromCopiesWithoutLead(KeywordRule(w, x), s, 0, |a|);
    DelimitedWholeWord(w, a, b);
    KeywordReplaced(w, x, s, |a|, e);
    SubFromCopiesWithoutLead(KeywordRule(w, x), s, e, |s|);
    SubThreePieces(KeywordRule(w, x), s, |a|, e, a, x, b);
  }

  // ---------------------------------------------------------------------------
  // divide before integer divide
  // ---------------------------------------------------------------------------

  /** A whole-word `integer divide` ends in a whole-word `divide`. */
  lemma IntegerDivideHoldsDivide(t: string, i: nat)
    requires WholeWordAt(t, "integer divide", i)
    ensures WholeWordAt(t, "divide", i + 8)
  {
    OccursAtConcat(t, "integer ", "divide", i);
    assert "integer divide" == "integer " + "divide";
    OccursAtChars(t, "integer ", i);
    OccursAtChars(t, "divide", i + 8);
    assert t[i + 7] == ' ' && t[i + 8] == 'd';
  }

  /** Once the `divide` rule has run, the `integer divide` rule finds nothing to rewrite. */
  lemma IntegerDivideNeverFires(s: string)
    ensures Sub(IntegerDivideRule, Sub(DivideRule, s)) == Sub(DivideRule, s)
  {
    var t := Sub(DivideRule, s);
    KeywordRemoved("divide", "/", s);
    forall i
      ensures !WholeWordAt(t, "integer divide", i)
    {
      if WholeWordAt(t, "integer divide", i) {
        IntegerDivideHoldsDivide(t, i);
      }
    }
    SubWithoutLead(IntegerDivideRule, t);
  }

  lemma ApplyAllOne(r: Rule, line: string)
    ensures ApplyAll([r], line) == Sub(r, line)
  {
  }

  lemma ApplyAllTwo(r1: Rule, r2: Rule, line: string)
    ensures ApplyAll([r1, r2], line) == Sub(r2, Sub(r1, line))
  {
    assert [r1, r2][1..] == [r2];
    assert ApplyAll([r1, r2], line) == ApplyAll([r2], Sub(r1, line));
    ApplyAllOne(r2, Sub(r1, line));
  }

  /** The table around rules 20 and 21, `divide` and `integer divide`. */
  lemma TableAroundDivide()
    ensures Table == Table[..20] + [DivideRule, IntegerDivideRule] + Table[22..]
    ensures Table[..21] + Table[22..] == Table[..20] + [DivideRule] + Table[22..]
  {
  }

  /** Translating a line gives the same result with the `integer divide` rule struck from the table. */
  lemma IntegerDivideRuleIsDead(line: string)
    ensures TranslateLine(line) == ApplyAll(Table[..21] + Table[22..], line)
  {
    var before := Table[..20];
    var after := Table[22..];
    TableAroundDivide();
    ApplyAllAppend(before + [DivideRule, IntegerDivideRule], after, line);
    ApplyAllAppend(before, [DivideRule, IntegerDivideRule], line);
    ApplyAllAppend(before + [DivideRule], after, line);
    ApplyAllAppend(before, [DivideRule], line);
    var mid := ApplyAll(before, line);
    IntegerDivideNeverFires(mid);
    ApplyAllTwo(DivideRule, IntegerDivideRule, mid);
    ApplyAllOne(DivideRule, mid);
  }

  /** `integer divide` comes out of the two rules as `integer /`, never as `//`. */
  lemma IntegerDivideBecomesIntegerSlash()
    ensures Sub(IntegerDivideRule, Sub(DivideRule, "integer divide")) == "integer /"
  {
    KeywordBetween("divide", "/", "integer ", "");
    assert "integer " + "divide" + "" == "integer divide";
    IntegerDivideNeverFires("integer divide");
  }

  // ---------------------------------------------------------------------------
  // output
  // ---------------------------------------------------------------------------

  lemma ExpandOutputQuoted(text: string)
    ensures Expand(OutputQuotedRule.replacement, [text]) == "print(\"" + text + "\")"
  {
    var t := OutputQuotedRule.replacement;
    assert Expand(t[2..], [text]) == "\")";
    assert Expand(t[1..], [text]) == text + "\")";
  }

  lemma ExpandOutputRest(text: string)
    ensures Expand(OutputRestRule.replacement, [text]) == "print(" + text + ")"
  {
    var t := OutputRestRule.replacement;
    assert Expand(t[2..], [text]) == ")";
    assert Expand(t[1..], [text]) == text + ")";
  }

  // ---------------------------------------------------------------------------
  // Indentation
  // ---------------------------------------------------------------------------

  /** White space holds no word character, so no letter of a keyword. */
  lemma WordCharNotInSpace(c: char, indent: string)
    requires AllSpace(indent) && IsWordChar(c)
    ensures c !in indent
  {
  }

  /** Indentation followed by a word character has a word boundary where the indentation ends. */
  lemma IndentBoundary(indent: string, t: string)
    requires AllSpace(indent) && |t| > 0 && IsWordChar(t[0])
    ensures OccursAt(indent + t, t, |indent|) && IsBoundary(indent + t, |indent|)
  {
    var s := indent + t;
    assert s[|indent|..|indent| + |t|] == t;
    assert s[|indent|] == t[0];
    if |indent| > 0 {
      assert s[|indent| - 1] == indent[|indent| - 1];
      assert IsSpace(indent[|indent| - 1]);
    }
  }

  /**
    A match that runs from the end of the indentation to the end of the line
    replaces everything but the indentation, which is copied.
   */
  lemma IndentedWholeMatch(r: Rule, indent: string, t: string, groups: seq<string>)
    requires AllSpace(indent) && IsWordChar(Lead(r.pattern)[0])
    requires |t| > 0 && MatchAt(r.pattern, indent + t, |indent|) == Some(Match(|indent| + |t|, groups))
    ensures Sub(r, indent + t) == indent + Expand(r.replacement, groups)
  {
    var s := indent + t;
    assert s[0..|indent|] == indent;
    WordCharNotInSpace(Lead(r.pattern)[0], indent);
    SubFromCopiesWithoutLead(r, s, 0, |indent|);
    SubFromAtMatch(r, s, |indent|);
    SubThreePieces(r, s, |indent|, |s|, indent, Expand(r.replacement, groups), "");
  }

  /** The same, for a line given whole: white space up to `j`, then a match that runs to the end of the line. */
  lemma IndentedMatch(r: Rule, s: string, j: nat, groups: seq<string>)
    requires j < |s| && AllSpace(s[..j]) && IsWordChar(Lead(r.pattern)[0])
    requires MatchAt(r.pattern, s, j) == Some(Match(|s|, groups))
    ensures Sub(r, s) == s[..j] + Expand(r.replacement, groups)
  {
    assert s == s[..j] + s[j..];
    IndentedWholeMatch(r, s[..j], s[j..], groups);
  }

  /** `output "TEXT"`, indented or not and running to the end of the line, becomes `print("TEXT")` at the same indentation. */
  lemma OutputQuotedLine(indent: string, space: string, text: string)
    requires AllSpace(indent) && |space| > 0 && AllSpace(space) && '"' !in text && '\n' !in text
    ensures Sub(OutputQuotedRule, indent + ("output" + space + "\"" + text + "\""))
         == indent + ("print(\"" + text + "\")")
  {
    var t := "output" + space + "\"" + text + "\"";
    var s := indent + t;
    assert t[0] == 'o';
    IndentBoundary(indent, t);
    assert s[..|indent|] == indent;
    OutputQuotedLineAt(s, |indent|, space, text);
  }

  /** The same, for any line that is white space followed by such a statement. */
  lemma OutputQuotedLineAt(s: string, j: nat, space: string, text: string)
    requires |space| > 0 && AllSpace(space) && '"' !in text && '\n' !in text
    requires j <= |s| && AllSpace(s[..j]) && IsBoundary(s, j)
    requires OccursAt(s, "output" + space + "\"" + text + "\"", j) && |s| == j + |space| + |text| + 8
    ensures Sub(OutputQuotedRule, s) == s[..j] + ("print(\"" + text + "\")")
  {
    OutputQuotedMatches(s, j, space, text);
    assert OutputQuotedRule.pattern == OutputQuoted && Lead(OutputQuoted)[0] == 'o';
    IndentedMatch(OutputQuotedRule, s, j, [text]);
    ExpandOutputQuoted(text);
  }

  /**
    An occurrence of a keyword of word characters in `a + t + b`, where `a`
    holds no first letter of the keyword and ends in a non-word character and
    `b` holds no word character, is an occurrence inside `t` with the same
    boundaries.
   */
  lemma WholeWordInside(a: string, t: string, b: string, w: Word, i: nat)
    requires AllWordChars(w) && w[0] !in a && (|a| == 0 || !IsWordChar(a[|a| - 1])) && NoWordChars(b)
    requires WholeWordAt(a + t + b, w, i)
    ensures |a| <= i && WholeWordAt(t, w, i - |a|)
  {
    var u := a + t + b;
    var n := |w|;
    InsideStart(a, t, b, w, i);
    InsideEnd(a, t, b, w, i);
    var p := i - |a|;
    assert u[i..i + n] == t[p..p + n];
    InsideLeftBoundary(a, t, b, w, i);
    InsideRightBoundary(a, t, b, w, i);
  }

  /** The occurrence cannot start inside `a`, which lacks the keyword's first letter. */
  lemma InsideStart(a: string, t: string, b: string, w: Word, i: nat)
    requires w[0] !in a && OccursAt(a + t + b, w, i)
    ensures |a| <= i
  {
    OccursAtFirst(a + t + b, w, i);
  }

  /** The occurrence cannot reach into `b`, which holds no word character. */
  lemma InsideEnd(a: string, t: string, b: string, w: Word, i: nat)
    requires AllWordChars(w) && NoWordChars(b) && OccursAt(a + t + b, w, i)
    ensures i + |w| <= |a| + |t|
  {
    var u := a + t + b;
    OccursAtIndex(u, w, i, |w| - 1);
  }

  lemma InsideLeftBoundary(a: string, t: string, b: string, w: Word, i: nat)
    requires AllWordChars(w) && (|a| == 0 || !IsWordChar(a[|a| - 1]))
    requires |a| <= i && i + |w| <= |a| + |t| && WholeWordAt(a + t + b, w, i)
    ensures IsBoundary(t, i - |a|)
  {
    var u := a + t + b;
    var p := i - |a|;
    OccursAtFirst(u, w, i);
    assert u[i] == t[p];
    if p > 0 {
      assert u[i - 1] == t[p - 1];
    }
  }

  lemma InsideRightBoundary(a: string, t: string, b: string, w: Word, i: nat)
    requires AllWordChars(w) && NoWordChars(b)
    requires |a| <= i && i + |w| <= |a| + |t| && WholeWordAt(a + t + b, w, i)
    ensures IsBoundary(t, i - |a| + |w|)
  {
    var u := a + t + b;
    var p := i - |a|;
    OccursAtIndex(u, w, i, |w| - 1);
    assert u[i + |w| - 1] == t[p + |w| - 1];
    if p + |w| < |t| {
      assert u[i + |w|] == t[p + |w|];
    } else if i + |w| < |u| {
      assert u[i + |w|] == b[0];
    }
  }

  /** Wrapping keyword-free text in such delimiters adds no whole-word occurrence of the keyword. */
  lemma NoWholeWordWrapped(a: string, t: string, b: string, w: Word)
    requires AllWordChars(w) && w[0] !in a && (|a| == 0 || !IsWordChar(a[|a| - 1])) && NoWordChars(b)
    requires forall i :: !WholeWordAt(t, w, i)
    ensures forall i :: !WholeWordAt(a + t + b, w, i)
  {
    forall i
      ensures !WholeWordAt(a + t + b, w, i)
    {
      if WholeWordAt(a + t + b, w, i) {
        WholeWordInside(a, t, b, w, i);
      }
    }
  }

  /** In `print("TEXT")` the generic `output` rule finds nothing, unless TEXT itself holds a whole-word `output`. */
  lemma OutputRestSkipsPrint(indent: string, text: string)
    requires AllSpace(indent)
    requires forall i :: !WholeWordAt(text, "output", i)
    ensures Sub(OutputRestRule, indent + ("print(\"" + text + "\")")) == indent + ("print(\"" + text + "\")")
  {
    var a := indent + "print(\"";
    assert indent + ("print(\"" + text + "\")") == a + text + "\")";
    assert NoWordChars("\")") && a[|a| - 1] == '"' && 'o' !in "print(\"";
    WordCharNotInSpace('o', indent);
    NoWholeWordWrapped(a, text, "\")", "output");
    SubWithoutLead(OutputRestRule, a + text + "\")");
  }

  /**
    After the `output "TEXT"` rule has fired on a line, the generic `output`
    rule that follows it leaves the line alone, provided TEXT holds no
    whole-word `output` of its own.
   */
  lemma OutputRulesInTurn(indent: string, space: string, text: string)
    requires AllSpace(indent) && |space| > 0 && AllSpace(space) && '"' !in text && '\n' !in text
    requires forall i :: !WholeWordAt(text, "output", i)
    ensures Sub(OutputRestRule, Sub(OutputQuotedRule, indent + ("output" + space + "\"" + text + "\"")))
         == indent + ("print(\"" + text + "\")")
  {
    OutputQuotedLine(indent, space, text);
    OutputRestSkipsPrint(indent, text);
  }

  /** A text that has `output` and white space at index 7 is rewritten from there to its end. */
  lemma OutputRestFromSeven(u: string, rest: string)
    requires |u| > 7 && IsBoundary(u, 7) && Lead(OutputRest)[0] !in u[0..7]
    requires u[7..] == "output" + " " + rest
    requires '\n' !in rest && (|rest| == 0 || !IsSpace(rest[0]))
    ensures Sub(OutputRestRule, u) == u[0..7] + ("print(" + rest + ")")
  {
    OutputRestMatches(u, 7, " ", rest);
    SubFromCopiesWithoutLead(OutputRestRule, u, 0, 7);
    SubFromAtMatch(OutputRestRule, u, 7);
    ExpandOutputRest(rest);
    SubThreePieces(OutputRestRule, u, 7, |u|, u[0..7], "print(" + rest + ")", "");
  }

  /** In `print("output TAIL")` the generic `output` rule rewrites from `output` to the end of the line. */
  lemma OutputRestInsidePrint(tail: string)
    requires '\n' !in tail && (|tail| == 0 || !IsSpace(tail[0]))
    ensures Sub(OutputRestRule, "print(\"" + ("output " + tail) + "\")") == "print(\"" + ("print(" + (tail + "\")") + ")")
  {
    var u := "print(\"" + ("output " + tail) + "\")";
    var rest := tail + "\")";
    PrintPrefix(u, "output " + tail);
    assert u[7..] == "output" + " " + rest;
    OutputRestFromSeven(u, rest);
  }

  /**
    Without that proviso the generic rule fires again:
    `output "output TAIL"` becomes `print("print(TAIL"))`.
   */
  lemma OutputRuleFiresTwice(space: string, tail: string)
    requires |space| > 0 && AllSpace(space) && '"' !in tail && '\n' !in tail
    requires |tail| == 0 || !IsSpace(tail[0])
    ensures Sub(OutputRestRule, Sub(OutputQuotedRule, "output" + space + "\"" + ("output " + tail) + "\""))
         == "print(\"" + ("print(" + (tail + "\")") + ")")
  {
    var line := "output" + space + "\"" + ("output " + tail) + "\"";
    var printed := "print(\"" + ("output " + tail) + "\")";
    OutputQuotedLine("", space, "output " + tail);
    assert "" + line == line && "" + printed == printed;
    OutputRestInsidePrint(tail);
  }

  /** The first seven characters of `print("TEXT")` when TEXT starts with `o`. */
  lemma PrintPrefix(u: string, text: string)
    requires u == "print(\"" + text + "\")" && |text| > 0 && text[0] == 'o'
    ensures u[0..7] == "print(\"" && Lead(OutputRest)[0] !in u[0..7]
    ensures IsBoundary(u, 7)
  {
    assert u[6] == '"' && u[7] == 'o';
  }

  /**
    The rules do not know about string literals: a keyword inside the quotes
    of `output "KEYWORD"` is rewritten by its own rule, later in the table.
   */
  lemma KeywordInsideQuotes(w: Word, x: string, indent: string, space: string)
    requires AllWordChars(w) && w[0] !in "print"
    requires AllSpace(indent) && |space| > 0 && AllSpace(space)
    ensures Sub(KeywordRule(w, x), Sub(OutputQuotedRule, indent + ("output" + space + "\"" + w + "\"")))
         == indent + ("print(\"" + x + "\")")
  {
    var a := indent + "print(\"";
    assert !IsWordChar('"') && !IsWordChar(')') && a[|a| - 1] == '"';
    assert w[0] !in "print(\"" && w[0] !in "\")";
    WordCharNotInSpace(w[0], indent);
    QuotesFreeWord(w);
    OutputQuotedLine(indent, space, w);
    assert indent + ("print(\"" + w + "\")") == a + w + "\")";
    KeywordBetween(w, x, a, "\")");
  }

  lemma QuotesFreeWord(w: string)
    requires AllWordChars(w)
    ensures '"' !in w && '\n' !in w
  {
    forall i | 0 <= i < |w|
      ensures w[i] != '"' && w[i] != '\n'
    {
      assert IsWordChar(w[i]);
    }
  }

  /**
    Rules each of whose leading keywords has a letter that an indented text
    lacks leave the indented text unchanged: the letter is a word character,
    so the indentation lacks it too.
   */
  lemma ApplyAllMissingLettersIndented(rules: seq<Rule>, indent: string, text: string, letters: string)
    requires AllSpace(indent) && AllWordChars(letters) && |letters| == |rules|
    requires forall k :: 0 <= k < |rules| ==> letters[k] in Lead(rules[k].pattern) && letters[k] !in text
    ensures ApplyAll(rules, indent + text) == indent + text
  {
    forall k | 0 <= k < |letters|
      ensures letters[k] !in indent + text
    {
      WordCharNotInSpace(letters[k], indent);
    }
    ApplyAllMissingLetters(rules, indent + text, letters);
  }

  /** Rules 0 to 2 turn `output "add"` into `print("add")`: `define` does not occur, the quoted rule fires, the generic rule then finds nothing. */
  lemma AddInsideQuotesHead(indent: string)
    requires AllSpace(indent)
    ensures ApplyAll([DefineRule, OutputQuotedRule, OutputRestRule], indent + "output \"add\"") == indent + "print(\"add\")"
  {
    var rules := [DefineRule, OutputQuotedRule, OutputRestRule];
    var line := indent + "output \"add\"";
    var printed := indent + "print(\"add\")";
    WordCharNotInSpace('e', indent);
    assert 'e' in Lead(DefineRule.pattern) && 'e' !in "output \"add\"";
    SubMissingLetter(DefineRule, line, 'e');
    assert "output" + " " + "\"" + "add" + "\"" == "output \"add\"";
    assert "print(\"" + "add" + "\")" == "print(\"add\")";
    OutputQuotedLine(indent, " ", "add");
    OutputRestSkipsPrint(indent, "add");
    ApplyAllStep(rules, 0, line);
    ApplyAllStep(rules, 1, line);
    ApplyAllStep(rules, 2, printed);
  }

  /** Rules 3 to 16 leave `print("add")` alone: each of their keywords has a letter the line lacks. */
  lemma AddInsideQuotesMiddle(indent: string)
    requires AllSpace(indent)
    ensures ApplyAll(BeforeAdd, indent + "print(\"add\")") == indent + "print(\"add\")"
  {
    var line := indent + "print(\"add\")";
    LettersOfOtherwise();
    LettersOfExit();
    LettersOfEqual();
    ApplyAllMissingLettersIndented(FromOtherwise, indent, "print(\"add\")", "oeel");
    ApplyAllMissingLettersIndented(FromExit, indent, "print(\"add\")", "esgss");
    ApplyAllMissingLettersIndented(FromEqual, indent, "print(\"add\")", "ssssw");
    ApplyAllAppend(FromOtherwise + FromExit, FromEqual, line);
    ApplyAllAppend(FromOtherwise, FromExit, line);
  }

  /** Rules 18 to 27 leave `print("+")` alone, for the same reason. */
  lemma AddInsideQuotesTail(indent: string)
    requires AllSpace(indent)
    ensures ApplyAll(AfterAdd, indent + "print(\"+\")") == indent + "print(\"+\")"
  {
    LettersOfSubtract();
    LettersOfPower();
    ApplyAllMissingLettersIndented(FromSubtract, indent, "print(\"+\")", "smdem");
    ApplyAllMissingLettersIndented(FromPower, indent, "print(\"+\")", "obufo");
    ApplyAllAppend(FromSubtract, FromPower, indent + "print(\"+\")");
  }

  /**
    For each group of rules, one letter of each rule's keyword that the
    line lacks: `print("add")` before rule 17, `print("+")` after it.
   */
  lemma LettersOfOtherwise()
    ensures AllWordChars("oeel")
    ensures forall k :: 0 <= k < |FromOtherwise| ==> "oeel"[k] in Lead(FromOtherwise[k].pattern) && "oeel"[k] !in "print(\"add\")"
  {
  }

  lemma LettersOfExit()
    ensures AllWordChars("esgss")
    ensures forall k :: 0 <= k < |FromExit| ==> "esgss"[k] in Lead(FromExit[k].pattern) && "esgss"[k] !in "print(\"add\")"
  {
  }

  lemma LettersOfEqual()
    ensures AllWordChars("ssssw")
    ensures forall k :: 0 <= k < |FromEqual| ==> "ssssw"[k] in Lead(FromEqual[k].pattern) && "ssssw"[k] !in "print(\"add\")"
  {
  }

  lemma LettersOfSubtract()
    ensures AllWordChars("smdem")
    ensures forall k :: 0 <= k < |FromSubtract| ==> "smdem"[k] in Lead(FromSubtract[k].pattern) && "smdem"[k] !in "print(\"+\")"
  {
  }

  lemma LettersOfPower()
    ensures AllWordChars("obufo")
    ensures forall k :: 0 <= k < |FromPower| ==> "obufo"[k] in Lead(FromPower[k].pattern) && "obufo"[k] !in "print(\"+\")"
  {
  }

  const FromOtherwise: seq<Rule> := [OtherwiseRule, ElseIfRule, RepeatRule, LoopWhileRule]
  const FromExit: seq<Rule> := [ExitRule, SkipRule, GiveRule, GreaterRule, LessRule]
  const FromEqual: seq<Rule> := [EqualRule, NotEqualRule, AtLeastRule, AtMostRule, WithinRule]
  const FromSubtract: seq<Rule> := [SubtractRule, MultiplyRule, DivideRule, IntegerDivideRule, ModulusRule]
  const FromPower: seq<Rule> := [PowerRule, BecomesRule, TrueRule, FalseRule, NothingRule]

  /** Rules 3 to 16 of the table, between the `output` rules and `add`. */
  const BeforeAdd: seq<Rule> := FromOtherwise + FromExit + FromEqual

  /** Rules 18 to 27 of the table, after `add`. */
  const AfterAdd: seq<Rule> := FromSubtract + FromPower

  /** The table cut around rule 17, `add`. */
  lemma TableAroundAdd()
    ensures Table == [DefineRule, OutputQuotedRule, OutputRestRule] + BeforeAdd + ([AddRule] + AfterAdd)
  {
  }

  /** Rule 17 rewrites the `add` between the quotes. */
  lemma AddInsideQuotesAdd(indent: string)
    requires AllSpace(indent)
    ensures Sub(AddRule, indent + "print(\"add\")") == indent + "print(\"+\")"
  {
    var a := indent + "print(\"";
    assert a[|a| - 1] == '"' && 'a' !in "print(\"" && 'a' !in "\")";
    WordCharNotInSpace('a', indent);
    assert indent + "print(\"add\")" == a + "add" + "\")";
    assert indent + "print(\"+\")" == a + "+" + "\")";
    KeywordBetween("add", "+", a, "\")");
  }

  /**
    The rules do not know about string literals: translating the line
    `output "add"` prints `+`, at any indentation.
   */
  lemma AddInsideQuotes(indent: string)
    requires AllSpace(indent)
    ensures TranslateLine(indent + "output \"add\"") == indent + "print(\"+\")"
  {
    var line := indent + "output \"add\"";
    var printed := indent + "print(\"add\")";
    var head := [DefineRule, OutputQuotedRule, OutputRestRule];
    TableAroundAdd();
    ApplyAllAppend(head + BeforeAdd, [AddRule] + AfterAdd, line);
    ApplyAllAppend(head, BeforeAdd, line);
    AddInsideQuotesHead(indent);
    AddInsideQuotesMiddle(indent);
    assert ([AddRule] + AfterAdd)[1..] == AfterAdd;
    AddInsideQuotesAdd(indent);
    AddInsideQuotesTail(indent);
  }

  // ---------------------------------------------------------------------------
  // repeat
  // ---------------------------------------------------------------------------

  lemma ExpandRepeatBounds(t: seq<Piece>, g: seq<string>)
    requires t == RepeatRule.replacement[3..] && |g| == 3
    ensures Expand(t, g) == g[1] + ", " + g[2] + " + 1):"
  {
    assert Expand(t[3..], g) == " + 1):";
    assert Expand(t[2..], g) == g[2] + " + 1):";
    assert Expand(t[1..], g) == ", " + g[2] + " + 1):";
  }

  lemma ExpandRepeat(name: string, low: string, high: string)
    ensures Expand(RepeatRule.replacement, [name, low, high])
         == "for " + name + " in range(" + low + ", " + high + " + 1):"
  {
    var t := RepeatRule.replacement;
    var g := [name, low, high];
    ExpandRepeatBounds(t[3..], g);
    assert t[3..][1..] == t[4..] && t[2..][1..] == t[3..] && t[1..][1..] == t[2..];
    assert Expand(t[2..], g) == " in range(" + (low + ", " + high + " + 1):");
    assert Expand(t[1..], g) == name + (" in range(" + low + ", " + high + " + 1):");
  }

  lemma RepeatTextStart(name: string, low: string, high: string)
    ensures |RepeatText(name, low, high)| > 0 && RepeatText(name, low, high)[0] == 'r'
  {
  }

  /**
    `repeat NAME from LOW to HIGH:` with decimal bounds, indented or not,
    becomes a `for` loop at the same indentation whose range includes HIGH.
   */
  lemma RepeatLine(indent: string, name: string, low: string, high: string)
    requires AllSpace(indent)
    requires |name| > 0 && AllWordChars(name)
    requires |low| > 0 && AllDigits(low) && |high| > 0 && AllDigits(high)
    ensures Sub(RepeatRule, indent + RepeatText(name, low, high))
         == indent + ("for " + name + " in range(" + low + ", " + high + " + 1):")
  {
    var t := RepeatText(name, low, high);
    var s := indent + t;
    RepeatTextStart(name, low, high);
    IndentBoundary(indent, t);
    assert s[..|indent|] == indent;
    RepeatLineAt(s, |indent|, name, low, high);
  }

  /** The same, for any line that is white space followed by such a header. */
  lemma RepeatLineAt(s: string, j: nat, name: string, low: string, high: string)
    requires |name| > 0 && AllWordChars(name)
    requires |low| > 0 && AllDigits(low) && |high| > 0 && AllDigits(high)
    requires j <= |s| && AllSpace(s[..j]) && IsBoundary(s, j)
    requires OccursAt(s, RepeatText(name, low, high), j) && |s| == j + |RepeatText(name, low, high)|
    ensures Sub(RepeatRule, s) == s[..j] + ("for " + name + " in range(" + low + ", " + high + " + 1):")
  {
    RepeatHeaderMatches(s, j, name, low, high);
    assert RepeatRule.pattern == RepeatHeader && Lead(RepeatHeader)[0] == 'r';
    IndentedMatch(RepeatRule, s, j, [name, low, high]);
    ExpandRepeat(name, low, high);
  }

  /**
    A repeat header whose lower bound, or else whose upper bound, is not a
    non-empty string of digits is left as it is, indented or not, provided `repeat`
    stands as a whole word nowhere else on the line.
   */
  lemma RepeatLineKept(indent: string, name: string, low: string, high: string)
    requires AllSpace(indent)
    requires |name| > 0 && AllWordChars(name)
    requires (!(|low| > 0 && AllDigits(low)) && ' ' !in low) || (|low| > 0 && AllDigits(low) && !(|high| > 0 && AllDigits(high)) && ':' !in high)
    requires forall i :: i != |indent| ==> !WholeWordAt(indent + RepeatText(name, low, high), "repeat", i)
    ensures Sub(RepeatRule, indent + RepeatText(name, low, high)) == indent + RepeatText(name, low, high)
  {
    var t := RepeatText(name, low, high);
    assert t[0] == 'r';
    IndentBoundary(indent, t);
    RepeatLineKeptAt(indent + t, |indent|, name, low, high);
  }

  /** The same, for a header at any position of any line on which `repeat` stands nowhere else. */
  lemma RepeatLineKeptAt(s: string, j: nat, name: string, low: string, high: string)
    requires |name| > 0 && AllWordChars(name)
    requires (!(|low| > 0 && AllDigits(low)) && ' ' !in low) || (|low| > 0 && AllDigits(low) && !(|high| > 0 && AllDigits(high)) && ':' !in high)
    requires OccursAt(s, RepeatText(name, low, high), j)
    requires forall i :: i != j ==> !WholeWordAt(s, "repeat", i)
    ensures Sub(RepeatRule, s) == s
  {
    var nameEnd := j + 7 + |name|;
    var lowEnd := nameEnd + 6 + |low|;
    var highEnd := lowEnd + 4 + |high|;
    RepeatTextPieces(s, j, name, low, high);
    RepeatPiecesAtEnds(s, j, name, low, high, nameEnd, lowEnd, highEnd);
    if !(|low| > 0 && AllDigits(low)) && ' ' !in low {
      OccursAtFirst(s, " to ", lowEnd);
      RepeatRejectsLowBound(s, j, name, low, nameEnd);
    } else {
      OccursAtFirst(s, ":", highEnd);
      RepeatRejectsHighBound(s, j, name, low, high, nameEnd, lowEnd);
    }
    forall i | 0 <= i <= |s|
      ensures MatchAt(RepeatHeader, s, i).None?
    {
      if i != j {
        assert !WholeWordAt(s, Lead(RepeatHeader), i);
      }
    }
    SubWithoutMatch(RepeatRule, s);
  }
}
