/**
  `cl_to_py`: the CobraLang source is cut into lines, every rule of the
  translation table is applied to each line in table order, and the lines
  are joined again with `'\n'`.
 */
module Translator {
  import opened Text
  import opened Rewrite

  /** `\boutput\s+"(.*?)"` -> `print("\1")`. */
  const OutputQuotedRule: Rule := Rule(OutputQuoted, [Lit("print(\""), Group(1), Lit("\")")])

  /** `\boutput\s+(.*)` -> `print(\1)`. */
  const OutputRestRule: Rule := Rule(OutputRest, [Lit("print("), Group(1), Lit(")")])

  /** `\brepeat (\w+) from (\d+) to (\d+):` -> `for \1 in range(\2, \3 + 1):`. */
  const RepeatRule: Rule :=
    Rule(RepeatHeader, [Lit("for "), Group(1), Lit(" in range("), Group(2), Lit(", "), Group(3), Lit(" + 1):")])

  /** The keyword rules, `\bword\b` -> replacement. */
  const DefineRule: Rule := KeywordRule("define", "def")
  const OtherwiseRule: Rule := KeywordRule("otherwise", "else:")
  const ElseIfRule: Rule := KeywordRule("else if", "elif")
  const LoopWhileRule: Rule := KeywordRule("loop while", "while")
  const ExitRule: Rule := KeywordRule("exit", "break")
  const SkipRule: Rule := KeywordRule("skip", "continue")
  const GiveRule: Rule := KeywordRule("give", "return")
  const GreaterRule: Rule := KeywordRule("is greater than", ">")
  const LessRule: Rule := KeywordRule("is less than", "<")
  const EqualRule: Rule := KeywordRule("is equal to", "==")
  const NotEqualRule: Rule := KeywordRule("is not equal to", "!=")
  const AtLeastRule: Rule := KeywordRule("is at least", ">=")
  const AtMostRule: Rule := KeywordRule("is at most", "<=")
  const WithinRule: Rule := KeywordRule("within", "in")
  const AddRule: Rule := KeywordRule("add", "+")
  const SubtractRule: Rule := KeywordRule("subtract", "-")
  const MultiplyRule: Rule := KeywordRule("multiply", "*")
  const DivideRule: Rule := KeywordRule("divide", "/")
  const IntegerDivideRule: Rule := KeywordRule("integer divide", "//")
  const ModulusRule: Rule := KeywordRule("modulus", "%")
  const PowerRule: Rule := KeywordRule("power", "**")
  const BecomesRule: Rule := KeywordRule("becomes", "=")
  const TrueRule: Rule := KeywordRule("true", "True")
  const FalseRule: Rule := KeywordRule("false", "False")
  const NothingRule: Rule := KeywordRule("nothing", "None")

  /** The translation table, in the order in which the rules are applied. */
  const Table: seq<Rule> := [
    DefineRule,
    OutputQuotedRule,
    OutputRestRule,
    OtherwiseRule,
    ElseIfRule,
    RepeatRule,
    LoopWhileRule,
    ExitRule,
    SkipRule,
    GiveRule,
    GreaterRule,
    LessRule,
    EqualRule,
    NotEqualRule,
    AtLeastRule,
    AtMostRule,
    WithinRule,
    AddRule,
    SubtractRule,
    MultiplyRule,
    DivideRule,
    IntegerDivideRule,
    ModulusRule,
    PowerRule,
    BecomesRule,
    TrueRule,
    FalseRule,
    NothingRule
  ]

  /** The rules applied one after another, each to the result of the one before: a left fold. */
  function ApplyAll(rules: seq<Rule>, line: string): string
    decreases |rules|
  {
    if |rules| == 0 then line else ApplyAll(rules[1..], Sub(rules[0], line))
  }

  /** The whole table applied to one line. */
  function TranslateLine(line: string): string {
    ApplyAll(Table, line)
  }

  /** Every line translated on its own. */
  function TranslateLines(lines: seq<string>): (out: seq<string>)
    ensures |out| == |lines|
    ensures forall k :: 0 <= k < |lines| ==> out[k] == TranslateLine(lines[k])
  {
    seq(|lines|, k requires 0 <= k < |lines| => TranslateLine(lines[k]))
  }

  /** The value of `cl_to_py(code)`. */
  function Translation(code: string): string {
    Join(TranslateLines(SplitLines(code)), '\n')
  }

  /** `cl_to_py` as written: a loop over the lines with an inner loop over the table. */
  method ClToPy(code: string) returns (out: string)
    ensures out == Translation(code)
  {
    var lines := SplitLines(code);
    var translated := TranslateEach(Table, lines);
    assert translated == TranslateLines(lines);
    out := Join(translated, '\n');
  }

  /** The outer loop of `cl_to_py`: every line is rewritten by the rules and kept, in order. */
  method TranslateEach(rules: seq<Rule>, lines: seq<string>) returns (translated: seq<string>)
    ensures |translated| == |lines|
    ensures forall k :: 0 <= k < |lines| ==> translated[k] == ApplyAll(rules, lines[k])
  {
    translated := [];
    for i := 0 to |lines|
      invariant |translated| == i
      invariant forall k :: 0 <= k < i ==> translated[k] == ApplyAll(rules, lines[k])
    {
      var line := ApplyRules(rules, lines[i]);
      translated := translated + [line];
    }
  }

  /** The inner loop of `cl_to_py`: each rule in turn rewrites the line. */
  method ApplyRules(rules: seq<Rule>, line: string) returns (out: string)
    ensures out == ApplyAll(rules, line)
  {
    out := line;
    for n := 0 to |rules|
      invariant ApplyAll(rules[n..], out) == ApplyAll(rules, line)
    {
      ApplyAllStep(rules, n, out);
      out := Sub(rules[n], out);
    }
    assert rules[|rules|..] == [];
  }

  /** One step of the fold. */
  lemma ApplyAllStep(rules: seq<Rule>, n: nat, line: string)
    requires n < |rules|
    ensures ApplyAll(rules[n..], line) == ApplyAll(rules[n + 1..], Sub(rules[n], line))
  {
    assert rules[n..][1..] == rules[n + 1..];
  }

  // ---------------------------------------------------------------------------
  // The fold
  // ---------------------------------------------------------------------------

  /** Applying `a + b` is applying `a` and then `b`. */
  lemma {:induction false} ApplyAllAppend(a: seq<Rule>, b: seq<Rule>, line: string)
    ensures ApplyAll(a + b, line) == ApplyAll(b, ApplyAll(a, line))
    decreases |a|
  {
    if |a| == 0 {
      assert a + b == b;
    } else {
      assert (a + b)[1..] == a[1..] + b;
      ApplyAllAppend(a[1..], b, Sub(a[0], line));
    }
  }

  /** Rules whose leading keyword never stands as a whole word in the line leave it unchanged. */
  lemma {:induction false} ApplyAllWithoutLeads(rules: seq<Rule>, line: string)
    requires forall k, i :: 0 <= k < |rules| ==> !WholeWordAt(line, Lead(rules[k].pattern), i)
    ensures ApplyAll(rules, line) == line
    decreases |rules|
  {
    if |rules| > 0 {
      SubWithoutLead(rules[0], line);
      ApplyAllWithoutLeads(rules[1..], line);
    }
  }

  /** A rule whose leading keyword has a letter the line lacks leaves the line unchanged. */
  lemma SubMissingLetter(r: Rule, line: string, c: char)
    requires c in Lead(r.pattern) && c !in line
    ensures Sub(r, line) == line
  {
    var w := Lead(r.pattern);
    var k :| 0 <= k < |w| && w[k] == c;
    forall i
      ensures !WholeWordAt(line, w, i)
    {
      OccursAtIndex(line, w, i, k);
    }
    SubWithoutLead(r, line);
  }

  /** Rules each of whose leading keywords has a letter the line lacks leave it unchanged. */
  lemma {:induction false} ApplyAllMissingLetters(rules: seq<Rule>, line: string, letters: string)
    requires |letters| == |rules|
    requires forall k :: 0 <= k < |rules| ==> letters[k] in Lead(rules[k].pattern) && letters[k] !in line
    ensures ApplyAll(rules, line) == line
    decreases |rules|
  {
    if |rules| > 0 {
      SubMissingLetter(rules[0], line, letters[0]);
      ApplyAllMissingLetters(rules[1..], line, letters[1..]);
    }
  }

  /** A line holding none of the table's keywords as a whole word is translated to itself. */
  lemma TranslateLineWithoutKeywords(line: string)
    requires forall k, i :: 0 <= k < |Table| ==> !WholeWordAt(line, Lead(Table[k].pattern), i)
    ensures TranslateLine(line) == line
  {
    ApplyAllWithoutLeads(Table, line);
  }

  // ---------------------------------------------------------------------------
  // Lines
  // ---------------------------------------------------------------------------

  /** Printable ASCII, which holds no line break. */
  predicate Printable(s: string) {
    forall i :: 0 <= i < |s| ==> ' ' <= s[i] <= '~'
  }

  predicate PrintableTemplate(template: seq<Piece>) {
    forall i :: 0 <= i < |template| && template[i].Lit? ==> Printable(template[i].text)
  }

  lemma PrintableTemplateLineFree(template: seq<Piece>)
    requires PrintableTemplate(template)
    ensures LineFreeTemplate(template)
  {
    forall i, k | 0 <= i < |template| && template[i].Lit? && 0 <= k < |template[i].text|
      ensures !IsLineBreak(template[i].text[k])
    {
      assert ' ' <= template[i].text[k] <= '~';
    }
  }

  // The table is checked in five slices, each cheap to evaluate.
  lemma TablePrintable0To3()
    ensures forall k :: 0 <= k < 3 ==> PrintableTemplate(Table[k].replacement)
  {
  }

  lemma TablePrintable3To6()
    ensures forall k :: 3 <= k < 6 ==> PrintableTemplate(Table[k].replacement)
  {
  }

  lemma TablePrintable6To14()
    ensures forall k :: 6 <= k < 14 ==> PrintableTemplate(Table[k].replacement)
  {
  }

  lemma TablePrintable14To21()
    ensures forall k :: 14 <= k < 21 ==> PrintableTemplate(Table[k].replacement)
  {
  }

  lemma TablePrintable21To28()
    ensures forall k :: 21 <= k < 28 ==> PrintableTemplate(Table[k].replacement)
  {
  }

  /** Every group reference of the table's templates names a group its pattern has, so no expansion falls back to the empty text. */
  lemma TableTemplatesValid()
    ensures forall k :: 0 <= k < |Table| ==> ValidTemplate(Table[k].replacement, GroupCount(Table[k].pattern))
  {
    TableTemplatesValidTo6();
    TableTemplatesValidFrom6();
  }

  lemma TableTemplatesValidTo6()
    ensures forall k :: 0 <= k < 6 ==> ValidTemplate(Table[k].replacement, GroupCount(Table[k].pattern))
  {
  }

  lemma TableTemplatesValidFrom6()
    ensures forall k :: 6 <= k < 28 ==> ValidTemplate(Table[k].replacement, GroupCount(Table[k].pattern))
  {
  }

  /** No template of the table holds a line break. */
  lemma TableLineFree()
    ensures forall k :: 0 <= k < |Table| ==> LineFreeTemplate(Table[k].replacement)
  {
    TablePrintable0To3();
    TablePrintable3To6();
    TablePrintable6To14();
    TablePrintable14To21();
    TablePrintable21To28();
    forall k | 0 <= k < |Table|
      ensures LineFreeTemplate(Table[k].replacement)
    {
      PrintableTemplateLineFree(Table[k].replacement);
    }
  }

  lemma {:induction false} ApplyAllLineFree(rules: seq<Rule>, line: string)
    requires forall k :: 0 <= k < |rules| ==> LineFreeTemplate(rules[k].replacement)
    requires LineFree(line)
    ensures LineFree(ApplyAll(rules, line))
    decreases |rules|
  {
    if |rules| > 0 {
      SubFromLineFree(rules[0], line, 0);
      ApplyAllLineFree(rules[1..], Sub(rules[0], line));
    }
  }

  /** A translated line is still a single line. */
  lemma TranslateLineLineFree(line: string)
    requires LineFree(line)
    ensures LineFree(TranslateLine(line))
  {
    TableLineFree();
    ApplyAllLineFree(Table, line);
  }

  lemma LineFreeNoNewline(s: string)
    requires LineFree(s)
    ensures '\n' !in s
  {
    forall i | 0 <= i < |s|
      ensures s[i] != '\n'
    {
      assert !IsLineBreak(s[i]);
    }
  }

  /**
    The output has exactly one `'\n'`-separated line per line of the input,
    and line `k` of the output is line `k` of the input translated on its own.
    Empty input (no lines at all) gives empty output.
   */
  lemma TranslationLines(code: string)
    ensures var lines := SplitLines(code);
      && (|lines| == 0 ==> Translation(code) == "")
      && (|lines| > 0 ==>
            && |Split(Translation(code), '\n')| == |lines|
            && forall k :: 0 <= k < |lines| ==> Split(Translation(code), '\n')[k] == TranslateLine(lines[k]))
  {
    var lines := SplitLines(code);
    var out := TranslateLines(lines);
    forall k | 0 <= k < |out|
      ensures '\n' !in out[k]
    {
      TranslateLineLineFree(lines[k]);
      LineFreeNoNewline(out[k]);
    }
    if |lines| > 0 {
      SplitJoin(out, '\n');
    }
  }

  /** The output, read back with `splitlines()` after a final `'\n'`, gives the translated lines. */
  lemma TranslationSplitLines(code: string)
    requires |SplitLines(code)| > 0
    ensures SplitLines(Translation(code) + "\n") == TranslateLines(SplitLines(code))
  {
    var lines := SplitLines(code);
    var out := TranslateLines(lines);
    forall k | 0 <= k < |out|
      ensures LineFree(out[k])
    {
      TranslateLineLineFree(lines[k]);
    }
    SplitLinesJoin(out);
  }
}
