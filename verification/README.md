# CobraLang translator and keyword highlighter, modelled in Dafny

CobraLang is a toy language that is "run" by rewriting it into Python. This
project models the two pieces of logic in the repository:

- **`cl_to_py`** (`transl.py`). The source text is cut into lines with
  `str.splitlines()`. Each line then goes through a fixed table of 28 regular
  expression substitutions (`re.sub`), in table order, and the lines are joined
  again with `'\n'`. Most rules rewrite one keyword, taken as a whole word
  (`\bdefine\b` -> `def`). Three rules have capture groups:
  `output "TEXT"` -> `print("TEXT")`, `output REST` -> `print(REST)` and
  `repeat NAME from LOW to HIGH:` -> `for NAME in range(LOW, HIGH + 1):`.
- **`SyntaxHighlighter.highlightBlock`** (`ide/ide.py`). For every keyword of
  its 13-entry table, in table order, the editor finds the keyword with
  `str.find` and colours that occurrence. It then searches again from the end
  of the occurrence. Matching is plain substring search.

Modules:

- `Text` (text.dfy) holds the pieces of Python the translator relies on:
  - the character classes `\w`, `\d` and `\s`, the `.` class, and the `\b` boundary;
  - `str.splitlines`, `str.split` and `str.join` over `string == seq<char>`.
- `Rewrite` (rewrite.dfy) holds the rules:
  - the four pattern shapes the table uses, each matched by hand the way Python's `re` matches it;
  - replacement templates with group references;
  - `re.sub` as a leftmost, non-overlapping scan.
- `PatternFacts` (rewrite.dfy) characterises exactly what each capture-group pattern matches.
- `KeywordFacts` (keywords.dfy) proves that the rule for a one-word keyword whose replacement holds no word character (`add` -> `+`) leaves no whole-word occurrence of that keyword.
- `Translator` (translator.dfy) holds:
  - the translation table in source order;
  - `cl_to_py` as written (two nested loops) and as a fold;
  - the line-structure properties of the output.
- `TableFacts` (table_facts.dfy) holds properties of particular rules and of their order in the table.
- `Highlighter` (highlight.dfy) holds:
  - `str.find` and the `while index >= 0` scan;
  - an independent greedy description of the scan, proved equivalent to it;
  - the highlighter's keyword table.

## Model

| member | source | states |
|---|---|---|
| Text.SplitJoin | transl.py:45 | splitting a `'\n'`-join of newline-free lines on `'\n'` gives exactly those lines back |
| Text.JoinSplit | transl.py:45 | joining the parts of a split on `'\n'` restores the text |
| Text.SplitLinesJoin | transl.py:36 | `splitlines()` of lines that hold no line break, joined with `'\n'` and given a final `'\n'`, returns those lines |
| Rewrite.MatchAt | transl.py:6-33 | a match of any table pattern starts at a whole-word occurrence of its leading keyword, ends after its start and has one text per capture group; the groups of a one-line text are one-line |
| Rewrite.MatchOutputQuoted | transl.py:7 | a match of `\boutput\s+"(.*?)"` starts at a whole-word `output`, has exactly one group and stays within the text |
| Rewrite.MatchOutputRest | transl.py:8 | a match of `\boutput\s+(.*)` starts at a whole-word `output`, has exactly one group and stays within the text |
| Rewrite.MatchRepeatHeader | transl.py:11 | a match of the repeat pattern starts at a whole-word `repeat` and has exactly three groups |
| Rewrite.SubFromCopies | transl.py:42 | `re.sub` copies the text unchanged up to the next index where the pattern matches |
| Rewrite.SubWithoutMatch | transl.py:42 | a pattern that matches nowhere leaves the text unchanged |
| Rewrite.SubWithoutLead | transl.py:42 | a rule whose leading keyword stands nowhere as a whole word leaves the text unchanged |
| Rewrite.SubFromLineFree | transl.py:42 | a substitution whose template holds no line break turns a one-line text into a one-line text |
| PatternFacts.OutputQuotedSound | transl.py:7 | whatever the quoted `output` pattern matches is `output`, non-empty white space, a quote, a text free of quotes and newlines (the group) and a closing quote |
| PatternFacts.OutputQuotedMatches | transl.py:7 | conversely, a whole-word `output`, white space and a quoted text free of quotes and newlines is matched up to the closing quote, with the text as group 1 |
| PatternFacts.OutputRestSound | transl.py:8 | whatever the generic `output` pattern matches is `output`, all the white space after it, and the rest of the line as group 1 |
| PatternFacts.OutputRestMatches | transl.py:8 | conversely, `output`, white space and a text that does not start with white space are matched to the end of the line |
| PatternFacts.RepeatHeaderSound | transl.py:11 | whatever the repeat pattern matches is `repeat NAME from LOW to HIGH:`, where NAME is word characters and LOW and HIGH are digits; the groups are NAME, LOW and HIGH |
| PatternFacts.RepeatHeaderMatches | transl.py:11 | conversely, such a header at a word boundary is matched in full, with NAME, LOW and HIGH as the groups |
| PatternFacts.RepeatRejectsLowBound | transl.py:11 | the repeat pattern does not match when the lower bound is not a non-empty digit string (an empty bound included, as `\d+` needs a digit) and holds no space |
| PatternFacts.RepeatRejectsHighBound | transl.py:11 | the repeat pattern does not match when the upper bound is not a non-empty digit string (an empty bound included) and holds no colon, after a valid name and lower bound |
| KeywordFacts.NoKeywordInRun | transl.py:6 | inside a run of word characters other than the keyword itself, `\bw\b` matches nowhere |
| KeywordFacts.KeywordGoneFrom | transl.py:23-30 | for a keyword made only of word characters and a replacement holding none, the rule leaves no whole-word occurrence of the keyword in what it produces from any index that does not fall inside a word, given whether the character before is a word character; this covers `add`, `subtract`, `multiply`, `divide`, `modulus`, `power` and `becomes`, not `integer divide` |
| KeywordFacts.KeywordRemoved | transl.py:23-30 | after such a one-word rule (`add` -> `+`, `divide` -> `/`, ...) has run, its keyword stands nowhere as a whole word |
| TableFacts.WholeWordInWord | transl.py:23 | inside a text made only of word characters, `\bw\b` can match only the whole text |
| TableFacts.KeywordInsideWordKept | transl.py:23 | a keyword rule leaves a single word other than its keyword unchanged, even when the keyword occurs inside that word |
| TableFacts.AddInsideWordsKept | transl.py:23 | `address` and `padding` come out of the `add` rule unchanged |
| TableFacts.KeywordBetween | transl.py:23 | a keyword between non-word delimiters that lack its first letter is replaced, and the delimiters are kept |
| TableFacts.IntegerDivideNeverFires | transl.py:26-27 | once the `divide` rule has run, the `integer divide` rule finds nothing to rewrite |
| TableFacts.IntegerDivideRuleIsDead | transl.py:26-27 | translating a line gives the same result with the `integer divide` rule struck from the table |
| TableFacts.IntegerDivideBecomesIntegerSlash | transl.py:26-27 | `integer divide` comes out of the two rules as `integer /`, never as `//` |
| TableFacts.IndentedMatch | transl.py:42 | when a rule's match runs from the end of a line's leading white space to the end of the line, `re.sub` keeps the white space and replaces the rest by the expanded template |
| TableFacts.OutputQuotedLine | transl.py:7 | a line `output "TEXT"` becomes `print("TEXT")`, at any indentation, which is kept |
| TableFacts.OutputQuotedLineAt | transl.py:7 | the same for any line that is white space followed by such a statement |
| TableFacts.OutputRulesInTurn | transl.py:7-8 | after the quoted rule has fired on an indented or unindented `output "TEXT"`, the generic `output` rule leaves `print("TEXT")` alone when TEXT holds no whole-word `output` |
| TableFacts.OutputRuleFiresTwice | transl.py:7-8 | without that proviso the generic rule fires inside the literal: `output "output TAIL"` becomes `print("print(TAIL"))` |
| TableFacts.AddInsideQuotes | transl.py:39-43 | the rules do not know about string literals: the whole table, applied to the line `output "add"` at any indentation, gives `print("+")` at the same indentation |
| TableFacts.KeywordInsideQuotes | transl.py:7 | rule 7 and then the keyword's own rule (transl.py:23-30, for example) turn `output "KEYWORD"`, at any indentation, into `print("X")`: the keyword inside the literal is rewritten; stated for a keyword of word characters that does not start with a letter of `print` |
| TableFacts.RepeatLine | transl.py:11 | `repeat NAME from LOW to HIGH:` with decimal bounds becomes `for NAME in range(LOW, HIGH + 1):` at the same indentation, so the upper bound is inclusive |
| TableFacts.RepeatLineAt | transl.py:11 | the same for any line that is white space followed by such a header |
| TableFacts.RepeatLineKept | transl.py:11 | a header, indented or not, whose lower bound or else whose upper bound is not a non-empty digit string (an empty bound such as `repeat i from  to 5:` included) is left unchanged |
| TableFacts.RepeatLineKeptAt | transl.py:11 | a header anywhere in a line on which `repeat` stands nowhere else is left unchanged when its lower bound is not a non-empty digit string and holds no space, or its lower bound is a non-empty digit string and its upper bound is not one and holds no colon; empty bounds are included |
| Translator.ClToPy | transl.py:36-45 | the two nested loops of `cl_to_py` compute the fold-based translation: split into lines, fold the table over each line, join with `'\n'` |
| Translator.TranslateEach | transl.py:39-43 | the outer loop keeps one output line per input line, and output line k is the rules applied to input line k alone |
| Translator.ApplyRules | transl.py:40-42 | the inner loop equals the left fold of the rule list over the line |
| Translator.ApplyAllAppend | transl.py:41-42 | applying the rules `a + b` is applying `a`, then `b` to the result |
| Translator.ApplyAllWithoutLeads | transl.py:41-42 | rules whose leading keywords stand nowhere in the line as whole words leave it unchanged |
| Translator.SubMissingLetter | transl.py:42 | a rule whose leading keyword has a letter the line lacks leaves the line unchanged |
| Translator.ApplyAllMissingLetters | transl.py:41-42 | rules each of whose leading keywords has a letter the line lacks leave it unchanged |
| Translator.TranslateLineWithoutKeywords | transl.py:6-33 | a line holding none of the table's keywords as a whole word is translated to itself |
| Translator.TableTemplatesValid | transl.py:6-33 | every group reference in the table's replacement templates names a group that the rule's pattern has |
| Translator.TranslateLineLineFree | transl.py:39-43 | a translated line contains no line break |
| Translator.TranslationLines | transl.py:36-45 | the output has exactly as many `'\n'`-separated lines as `splitlines()` gives for the input, and line k of the output is line k of the input translated on its own; no lines give empty output |
| Translator.TranslationSplitLines | transl.py:36-45 | `splitlines()` of the output, after a final `'\n'`, returns the translated lines |
| Highlighter.Find | ide/ide.py:40 | `find` returns -1 or an index at or after the start from which the word fits in the text |
| Highlighter.FindFirst | ide/ide.py:40 | a successful `find` returns the first occurrence at or after the start |
| Highlighter.FindNone | ide/ide.py:40 | when `find` returns -1, the word does not occur at or after the start |
| Highlighter.FindIsFirst | ide/ide.py:44 | conversely, the first occurrence at or after the start is what `find` returns |
| Highlighter.FindIsNone | ide/ide.py:44 | and where the word does not occur, `find` returns -1 |
| Highlighter.OccurrencesFound | ide/ide.py:40-43 | every start reported for a keyword is an occurrence of it: `text[i:i+len(word)] == word` |
| Highlighter.OccurrencesAfter | ide/ide.py:44 | every reported start lies at or after the index the scan started from |
| Highlighter.OccurrencesApart | ide/ide.py:44 | the reported starts increase and their spans do not overlap, because each search restarts at `index + length` |
| Highlighter.OccurrencesEmpty | ide/ide.py:40-41 | nothing is reported if and only if the word does not occur |
| Highlighter.OccurrencesGreedy | ide/ide.py:40-44 | the scan reports the left-to-right greedy non-overlapping occurrences: the first occurrence, then the same from its end |
| Highlighter.GreedyIsOccurrences | ide/ide.py:40-44 | conversely, any sequence of starts that fits that greedy description is exactly what the scan reports |
| Highlighter.OccurrenceCovered | ide/ide.py:40-44 | every occurrence of the word lies inside some reported span; the scan skips only occurrences that overlap a reported one |
| Highlighter.UnborderedAllReported | ide/ide.py:40-44 | for a word none of whose proper suffixes is also a prefix, every occurrence is reported |
| Highlighter.SpansAtContains | ide/ide.py:42-43 | a span is coloured for a keyword if and only if it starts at a reported index, with the keyword's length and colour |
| Highlighter.HighlightContains | ide/ide.py:39 | the spans of the whole table are exactly the spans of its keywords |
| Highlighter.HighlightSound | ide/ide.py:39-43 | every coloured span covers an occurrence of some keyword of the table, with that keyword's length and colour |
| Highlighter.HighlightNothing | ide/ide.py:39-41 | a text in which no keyword occurs gets no colour |
| Highlighter.ScanKeyword | ide/ide.py:40-44 | the `while index >= 0` loop for one keyword colours exactly the spans at the scan's starts, in order |
| Highlighter.HighlightWith | ide/ide.py:38-44 | the loop over the keyword table colours each keyword's spans in turn, in table order |
| Highlighter.HighlightBlock | ide/ide.py:14-44 | `highlightBlock` with the editor's 13 keywords; every span it colours is an occurrence of one of them, in that keyword's colour |
| Highlighter.IfAlwaysColoured | ide/ide.py:17 | `if` is coloured wherever it occurs, with no word-boundary check |
| Highlighter.IfInsideGift | ide/ide.py:40 | `if` is coloured inside `gift`, wherever `gift` stands |
| Highlighter.ElseIfAlwaysColoured | ide/ide.py:18 | `else if` is coloured wherever it occurs, since no proper suffix of it is also a prefix, so no occurrence is skipped by the scan |
| Highlighter.IfInsideElseIf | ide/ide.py:17-18 | in `else if` both the whole `else if` and the `if` on its own are coloured |

## Left out

- `translate` reads a file and runs the result with `exec`, and `__main__` reads `sys.argv` (transl.py:47-61). These are I/O and a foreign runtime.
- Qt is not modelled (ide/ide.py:1-12, 30-36, 46-344): window setup, stylesheets, file dialogs, file I/O and `subprocess`. `setFormat` becomes a `Span(start, length, colour)` record. `QColor` and `QTextCharFormat` become the colour string.
- The keyword dictionary's iteration order is taken to be insertion order, as Python 3.7 and later guarantee.
- Positions are Python string indexes. Qt's own UTF-16 position counting is not modelled.
- No general regular-expression engine. Only the four pattern shapes in the table are modelled: `\bword\b`, the two `output` patterns and the repeat header.
- `\w` and `\d` are ASCII only. Python's `str` patterns also accept other Unicode letters and digits. `\s` and the line breaks of `splitlines()` do use Python's full sets.
- A template that refers to a group its pattern lacks expands to nothing in `Rewrite.Expand`, where Python raises `re.error`. The table contains no such template (Translator.TableTemplatesValid).
- Highlighter.Occurrences requires a non-empty word. With an empty word the Python loop never ends, because `find("", i)` returns `i` and the length is 0. Every word in the table is non-empty.
- Highlighter.ScanKeyword carries a ghost index for the end of the previous occurrence, which the source does not keep. It exists only to state the loop invariant.
- KeywordFacts.KeywordRemoved: stated only for one-word keywords whose replacement holds no word character: `add`, `subtract`, `multiply`, `divide`, `modulus`, `power` and `becomes` (transl.py:23-26 and 28-30). It is not stated for the keywords with a space (`else if`, `loop while`, the comparisons at transl.py:16-21, `integer divide`), nor for word replacements such as `define` -> `def`.
- TableFacts.OutputRulesInTurn: the generic `output` rule stays silent after the quoted rule only when TEXT holds no whole-word `output`. TableFacts.OutputRuleFiresTwice shows the line on which it does fire.
- TableFacts.RepeatLineKept, TableFacts.RepeatLineKeptAt: require that a lower bound that is not a non-empty digit string holds no space (an empty bound is covered), that such an upper bound holds no colon, and that `repeat` stands nowhere else on the line as a whole word. Without these the pattern may still match a different stretch of the line: `repeat i from 1 to 5:x to 7:` is rewritten to `for i in range(1, 5 + 1):x to 7:`.
- TableFacts.KeywordInsideQuotes: requires that the keyword does not start with a letter of `print`. This only keeps the proof short, since then no letter before the keyword can start a match. The source has no such limit: an indented `output "true"` also ends as `print("True")`.
