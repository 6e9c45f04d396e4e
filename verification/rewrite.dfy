/**
  One row of the translation table: a pattern, matched the way Python's `re`
  module matches it, and a replacement template, applied to every match by
  `re.sub`. Only the four pattern shapes the table uses are modelled, each by
  hand rather than through a general regular-expression engine.
 */
module Rewrite {
  import opened Text

  datatype Option<T> = None | Some(value: T)

  /** A keyword of at least one character. */
  type Word = w: string | |w| > 0 witness "_"

  /** The pattern shapes of the translation table. */
  datatype Pattern =
    | Keyword(word: Word)   // \bword\b
    | OutputQuoted          // \boutput\s+"(.*?)"
    | OutputRest            // \boutput\s+(.*)
    | RepeatHeader          // \brepeat (\w+) from (\d+) to (\d+):

  /** A replacement template: literal text and group references (`\1` is `Group(1)`). */
  datatype Piece = Lit(text: string) | Group(index: nat)

  datatype Rule = Rule(pattern: Pattern, replacement: seq<Piece>)

  /** A successful match: where it ends and the text of its capture groups. */
  datatype Match = Match(end: nat, groups: seq<string>)

  /** The keyword every match of the pattern starts with. */
  function Lead(p: Pattern): Word {
    match p
    case Keyword(w) => w
    case OutputQuoted => "output"
    case OutputRest => "output"
    case RepeatHeader => "repeat"
  }

  function GroupCount(p: Pattern): nat {
    match p
    case Keyword(_) => 0
    case OutputQuoted => 1
    case OutputRest => 1
    case RepeatHeader => 3
  }

  /** `\boutput\s+"(.*?)"` at `j`: the lazy group stops at the first quote, and `.` never crosses `'\n'`. */
  function MatchOutputQuoted(s: string, j: nat): (m: Option<Match>)
    requires j <= |s|
    ensures m.Some? ==> j < m.value.end <= |s| && |m.value.groups| == 1
    ensures m.Some? && LineFree(s) ==> LineFree(m.value.groups[0])
    ensures m.Some? ==> WholeWordAt(s, "output", j)
  {
    if !(IsBoundary(s, j) && OccursAt(s, "output", j)) then None
    else
      var open := RunEnd(s, j + 6, IsSpace);
      if open == j + 6 || open == |s| || s[open] != '"' then None
      else
        var close := RunEnd(s, open + 1, IsQuotedChar);
        if close == |s| || s[close] != '"' then None
        else
          assert s[j + 5] == "output"[5] && IsSpace(s[j + 6]);
          Some(Match(close + 1, [s[open + 1..close]]))
  }

  /** `\boutput\s+(.*)` at `j`: the greedy `\s+` takes all the white space, the group the rest of the line. */
  function MatchOutputRest(s: string, j: nat): (m: Option<Match>)
    requires j <= |s|
    ensures m.Some? ==> j < m.value.end <= |s| && |m.value.groups| == 1
    ensures m.Some? && LineFree(s) ==> LineFree(m.value.groups[0])
    ensures m.Some? ==> WholeWordAt(s, "output", j)
  {
    if !(IsBoundary(s, j) && OccursAt(s, "output", j)) then None
    else
      var text := RunEnd(s, j + 6, IsSpace);
      if text == j + 6 then None
      else
        var end := RunEnd(s, text, IsNotNewline);
        assert s[j + 5] == "output"[5] && IsSpace(s[j + 6]);
        Some(Match(end, [s[text..end]]))
  }

  /**
    `\brepeat (\w+) from (\d+) to (\d+):` at `j`. Every repeated class is
    followed by a character outside it, so the greedy runs never need to give
    anything back.
   */
  function MatchRepeatHeader(s: string, j: nat): (m: Option<Match>)
    requires j <= |s|
    ensures m.Some? ==> j < m.value.end <= |s| && |m.value.groups| == 3
    ensures m.Some? && LineFree(s) ==> LineFree(m.value.groups[0]) && LineFree(m.value.groups[1]) && LineFree(m.value.groups[2])
    ensures m.Some? ==> WholeWordAt(s, "repeat", j)
  {
    if !(IsBoundary(s, j) && OccursAt(s, "repeat ", j)) then None
    else
      var nameEnd := RunEnd(s, j + 7, IsWordChar);
      if nameEnd == j + 7 || !OccursAt(s, " from ", nameEnd) then None
      else
        var lowEnd := RunEnd(s, nameEnd + 6, IsDigit);
        if lowEnd == nameEnd + 6 || !OccursAt(s, " to ", lowEnd) then None
        else
          var highEnd := RunEnd(s, lowEnd + 4, IsDigit);
          if highEnd == lowEnd + 4 || highEnd == |s| || s[highEnd] != ':' then None
          else
            OccursAtConcat(s, "repeat", " ", j);
            assert s[j + 5] == "repeat"[5] && s[j + 6] == ' ';
            Some(Match(highEnd + 1, [s[j + 7..nameEnd], s[nameEnd + 6..lowEnd], s[lowEnd + 4..highEnd]]))
  }

  /** The rule that rewrites the keyword `w` to the text `x`. */
  function KeywordRule(w: Word, x: string): Rule {
    Rule(Keyword(w), [Lit(x)])
  }

  /** The match of `p` that starts exactly at index `j` of `s`, if there is one. */
  function MatchAt(p: Pattern, s: string, j: nat): (m: Option<Match>)
    requires j <= |s|
    ensures m.Some? ==> j < m.value.end <= |s|
    ensures m.Some? ==> WholeWordAt(s, Lead(p), j)
    ensures m.Some? ==> |m.value.groups| == GroupCount(p)
    ensures m.Some? && LineFree(s) ==> forall k :: 0 <= k < |m.value.groups| ==> LineFree(m.value.groups[k])
  {
    match p
    case Keyword(w) => if WholeWordAt(s, w, j) then Some(Match(j + |w|, [])) else None
    case OutputQuoted => MatchOutputQuoted(s, j)
    case OutputRest => MatchOutputRest(s, j)
    case RepeatHeader => MatchRepeatHeader(s, j)
  }

  /** The replacement text for one match; a reference to a group the pattern lacks yields nothing. */
  function Expand(template: seq<Piece>, groups: seq<string>): string
    decreases |template|
  {
    if |template| == 0 then []
    else
      var head :=
        match template[0]
        case Lit(text) => text
        case Group(k) => if 1 <= k <= |groups| then groups[k - 1] else [];
      head + Expand(template[1..], groups)
  }

  /** The template refers only to groups the pattern has. */
  predicate ValidTemplate(template: seq<Piece>, groupCount: nat) {
    forall i :: 0 <= i < |template| && template[i].Group? ==> 1 <= template[i].index <= groupCount
  }

  /** No literal part of the template contains a line break. */
  predicate LineFreeTemplate(template: seq<Piece>) {
    forall i :: 0 <= i < |template| && template[i].Lit? ==> LineFree(template[i].text)
  }

  /**
    `re.sub` from index `j` on: the leftmost match is replaced, the search
    resumes where that match ended, and characters where no match starts are
    copied. No table pattern matches the empty string, so every match makes
    progress.
   */
  function SubFrom(r: Rule, s: string, j: nat): string
    requires j <= |s|
    decreases |s| - j
  {
    if j == |s| then []
    else
      match MatchAt(r.pattern, s, j)
      case None => [s[j]] + SubFrom(r, s, j + 1)
      case Some(m) => Expand(r.replacement, m.groups) + SubFrom(r, s, m.end)
  }

  /** `re.sub(pattern, replacement, s)`. */
  function Sub(r: Rule, s: string): string {
    SubFrom(r, s, 0)
  }

  // ---------------------------------------------------------------------------
  // Matching and copying
  // ---------------------------------------------------------------------------

  /** Where no match starts at `j`, the substitution copies `s[j]`. */
  lemma SubFromStep(r: Rule, s: string, j: nat)
    requires j < |s| && MatchAt(r.pattern, s, j).None?
    ensures SubFrom(r, s, j) == [s[j]] + SubFrom(r, s, j + 1)
  {
  }

  /** Characters up to the next match are copied unchanged. */
  lemma {:induction false} SubFromCopies(r: Rule, s: string, j: nat, k: nat)
    requires j <= k <= |s|
    requires forall i :: j <= i < k ==> MatchAt(r.pattern, s, i).None?
    ensures SubFrom(r, s, j) == s[j..k] + SubFrom(r, s, k)
    decreases k - j
  {
    if j < k {
      SubFromStep(r, s, j);
      SubFromCopies(r, s, j + 1, k);
      CopiedPrefix(s, j, k, SubFrom(r, s, j), SubFrom(r, s, j + 1), SubFrom(r, s, k));
    }
  }

  /** Copying `s[j]` and then `s[j + 1..k]` copies `s[j..k]`. */
  lemma CopiedPrefix(s: string, j: nat, k: nat, x: string, y: string, z: string)
    requires j < k <= |s| && x == [s[j]] + y && y == s[j + 1..k] + z
    ensures x == s[j..k] + z
  {
    assert s[j..k] == [s[j]] + s[j + 1..k];
  }

  /** Where a match starts at `j`, its expansion replaces it. */
  lemma SubFromAtMatch(r: Rule, s: string, j: nat)
    requires j < |s| && MatchAt(r.pattern, s, j).Some?
    ensures var m := MatchAt(r.pattern, s, j).value;
      SubFrom(r, s, j) == Expand(r.replacement, m.groups) + SubFrom(r, s, m.end)
  {
  }

  /** Where a stretch of the text holds no first letter of the rule's leading keyword, it is copied unchanged. */
  lemma SubFromCopiesWithoutLead(r: Rule, s: string, lo: nat, hi: nat)
    requires lo <= hi <= |s| && Lead(r.pattern)[0] !in s[lo..hi]
    ensures SubFrom(r, s, lo) == s[lo..hi] + SubFrom(r, s, hi)
  {
    forall i | lo <= i < hi
      ensures MatchAt(r.pattern, s, i).None?
    {
      assert s[i] == s[lo..hi][i - lo];
      OccursAtIndex(s, Lead(r.pattern), i, 0);
    }
    SubFromCopies(r, s, lo, hi);
  }

  /** The output of a substitution assembled from the outputs of three consecutive stretches of the text. */
  lemma SubThreePieces(r: Rule, s: string, p: nat, q: nat, a: string, x: string, b: string)
    requires p <= q <= |s|
    requires SubFrom(r, s, 0) == a + SubFrom(r, s, p)
    requires SubFrom(r, s, p) == x + SubFrom(r, s, q)
    requires SubFrom(r, s, q) == b + SubFrom(r, s, |s|)
    ensures Sub(r, s) == a + x + b
  {
    assert SubFrom(r, s, |s|) == [];
  }

  /** A pattern that matches nowhere leaves the text as it is. */
  lemma SubWithoutMatch(r: Rule, s: string)
    requires forall i :: 0 <= i <= |s| ==> MatchAt(r.pattern, s, i).None?
    ensures Sub(r, s) == s
  {
    SubFromCopies(r, s, 0, |s|);
  }

  /** A rule fires only where its leading keyword stands as a whole word: without one, the text is unchanged. */
  lemma SubWithoutLead(r: Rule, s: string)
    requires forall i :: !WholeWordAt(s, Lead(r.pattern), i)
    ensures Sub(r, s) == s
  {
    SubWithoutMatch(r, s);
  }

  // ---------------------------------------------------------------------------
  // Line breaks
  // ---------------------------------------------------------------------------

  lemma {:induction false} ExpandLineFree(template: seq<Piece>, groups: seq<string>)
    requires LineFreeTemplate(template)
    requires forall k :: 0 <= k < |groups| ==> LineFree(groups[k])
    ensures LineFree(Expand(template, groups))
    decreases |template|
  {
    if |template| > 0 {
      ExpandLineFree(template[1..], groups);
    }
  }

  /** A substitution whose template has no line break never introduces one. */
  lemma {:induction false} SubFromLineFree(r: Rule, s: string, j: nat)
    requires j <= |s|
    requires LineFree(s) && LineFreeTemplate(r.replacement)
    ensures LineFree(SubFrom(r, s, j))
    decreases |s| - j
  {
    if j < |s| {
      match MatchAt(r.pattern, s, j)
      case None =>
        SubFromLineFree(r, s, j + 1);
      case Some(m) =>
        ExpandLineFree(r.replacement, m.groups);
        SubFromLineFree(r, s, m.end);
    }
  }
}

/**
  What each pattern of the table matches, stated as the text it accepts
  rather than as the scan that finds it; each `...Matches` lemma is the
  converse of the `...Sound` lemma next to it.
 */
module PatternFacts {
  import opened Text
  import opened Rewrite

  /** The header `repeat NAME from LOW to HIGH:`. */
  function RepeatText(name: string, low: string, high: string): string {
    "repeat " + name + " from " + low + " to " + high + ":"
  }

  /** A text between two quote characters occurs, quotes included. */
  lemma OccursQuoted(s: string, open: nat, close: nat)
    requires open < close < |s| && s[open] == '"' && s[close] == '"'
    ensures OccursAt(s, "\"" + s[open + 1..close] + "\"", open)
  {
    assert s[open..close + 1] == [s[open]] + s[open + 1..close] + [s[close]];
  }

  /** Whatever `\boutput\s+"(.*?)"` matches is `output`, white space, and a quoted text free of quotes and newlines. */
  lemma OutputQuotedSound(s: string, j: nat)
    requires j <= |s| && MatchAt(OutputQuoted, s, j).Some?
    ensures var m := MatchAt(OutputQuoted, s, j).value;
      var text := m.groups[0];
      var open := m.end - |text| - 2;
      && j + 6 < open
      && OccursAt(s, "output", j)
      && AllSpace(s[j + 6..open])
      && OccursAt(s, "\"" + text + "\"", open)
      && '"' !in text && '\n' !in text
  {
    var open, close := OutputQuotedFound(s, j);
    OutputQuotedAt(s, j, open, close);
    OutputQuotedPieces(s, j, open, close);
  }

  /** What the quoted-output scan established when it succeeds. */
  lemma OutputQuotedFound(s: string, j: nat) returns (open: nat, close: nat)
    requires j <= |s| && MatchOutputQuoted(s, j).Some?
    ensures IsBoundary(s, j) && OccursAt(s, "output", j)
    ensures j + 6 < open < |s| && open == RunEnd(s, j + 6, IsSpace) && s[open] == '"'
    ensures open < close < |s| && close == RunEnd(s, open + 1, IsQuotedChar) && s[close] == '"'
  {
    open := RunEnd(s, j + 6, IsSpace);
    close := RunEnd(s, open + 1, IsQuotedChar);
  }

  /** The white space and the quoted text between the runs the scan found. */
  lemma OutputQuotedPieces(s: string, j: nat, open: nat, close: nat)
    requires j + 6 < open < close < |s| && s[open] == '"' && s[close] == '"'
    requires open == RunEnd(s, j + 6, IsSpace) && close == RunEnd(s, open + 1, IsQuotedChar)
    ensures AllSpace(s[j + 6..open])
    ensures OccursAt(s, "\"" + s[open + 1..close] + "\"", open)
    ensures '"' !in s[open + 1..close] && '\n' !in s[open + 1..close]
  {
    RunSlice(s, j + 6, open, IsSpace);
    RunSlice(s, open + 1, close, IsQuotedChar);
    OccursQuoted(s, open, close);
  }

  /** The parts of an occurrence of `output "TEXT"`, position by position. */
  lemma OutputQuotedParts(s: string, j: nat, space: string, text: string, open: nat, close: nat)
    requires open == j + 6 + |space| && close == open + 1 + |text|
    requires OccursAt(s, "output" + space + "\"" + text + "\"", j)
    ensures close < |s|
    ensures OccursAt(s, "output", j) && OccursAt(s, space, j + 6)
    ensures s[open] == '"' && s[close] == '"'
    ensures s[open + 1..close] == text
  {
    OccursAtConcat(s, "output" + space + "\"" + text, "\"", j);
    OccursAtConcat(s, "output" + space + "\"", text, j);
    OccursAtConcat(s, "output" + space, "\"", j);
    OccursAtConcat(s, "output", space, j);
    OccursAtFirst(s, "\"", open);
    OccursAtFirst(s, "\"", close);
  }

  /** The scan of `MatchOutputQuoted`, given where its two runs end. */
  lemma OutputQuotedAt(s: string, j: nat, open: nat, close: nat)
    requires j <= |s| && IsBoundary(s, j) && OccursAt(s, "output", j)
    requires j + 6 < open < |s| && RunEnd(s, j + 6, IsSpace) == open && s[open] == '"'
    requires open < close < |s| && RunEnd(s, open + 1, IsQuotedChar) == close && s[close] == '"'
    ensures MatchAt(OutputQuoted, s, j) == Some(Match(close + 1, [s[open + 1..close]]))
  {
  }

  /** A slice free of quotes and newlines is one run of `IsQuotedChar`. */
  lemma QuotedRun(s: string, a: nat, b: nat)
    requires a <= b < |s| && '"' !in s[a..b] && '\n' !in s[a..b] && s[b] == '"'
    ensures RunEnd(s, a, IsQuotedChar) == b
  {
    forall i | a <= i < b
      ensures IsQuotedChar(s[i])
    {
      assert s[a..b][i - a] == s[i];
    }
    RunEndIs(s, a, IsQuotedChar, b);
  }

  /** Conversely, `output`, white space and a quoted text free of quotes and newlines is matched, with the text as group 1. */
  lemma OutputQuotedMatches(s: string, j: nat, space: string, text: string)
    requires j <= |s| && IsBoundary(s, j)
    requires |space| > 0 && AllSpace(space) && '"' !in text && '\n' !in text
    requires OccursAt(s, "output" + space + "\"" + text + "\"", j)
    ensures MatchAt(OutputQuoted, s, j) == Some(Match(j + |space| + |text| + 8, [text]))
  {
    var open := j + 6 + |space|;
    var close := open + 1 + |text|;
    OutputQuotedParts(s, j, space, text, open, close);
    SpaceRun(s, j + 6, space, open);
    QuotedRun(s, open + 1, close);
    OutputQuotedAt(s, j, open, close);
  }

  /** White space followed by a quote is one run of `IsSpace`. */
  lemma SpaceRun(s: string, a: nat, space: string, e: nat)
    requires e == a + |space| && OccursAt(s, space, a) && AllSpace(space)
    requires e < |s| && s[e] == '"'
    ensures RunEnd(s, a, IsSpace) == e
  {
    RunOfOccurrence(s, a, space, IsSpace, e);
  }

  /** Whatever `\boutput\s+(.*)` matches is `output`, all the white space after it, and the rest of the line. */
  lemma OutputRestSound(s: string, j: nat)
    requires j <= |s| && MatchAt(OutputRest, s, j).Some?
    ensures var m := MatchAt(OutputRest, s, j).value;
      var text := m.groups[0];
      var start := m.end - |text|;
      && j + 6 < start
      && OccursAt(s, "output", j)
      && AllSpace(s[j + 6..start])
      && (start == |s| || !IsSpace(s[start]))
      && s[start..m.end] == text
      && '\n' !in text
      && (m.end == |s| || s[m.end] == '\n')
  {
    var start := RunEnd(s, j + 6, IsSpace);
    var end := RunEnd(s, start, IsNotNewline);
    assert MatchAt(OutputRest, s, j).value == Match(end, [s[start..end]]);
    RunSlice(s, j + 6, start, IsSpace);
    RunSlice(s, start, end, IsNotNewline);
  }

  /** The scan of `MatchOutputRest`, given where its white space ends. */
  lemma OutputRestAt(s: string, j: nat, start: nat)
    requires j <= |s| && IsBoundary(s, j) && OccursAt(s, "output", j)
    requires j + 6 < start <= |s| && RunEnd(s, j + 6, IsSpace) == start
    ensures var end := RunEnd(s, start, IsNotNewline);
      MatchAt(OutputRest, s, j) == Some(Match(end, [s[start..end]]))
  {
  }

  /** The parts of `output` + white space + text filling `s` from `j` on. */
  lemma OutputRestParts(s: string, j: nat, space: string, text: string)
    requires j <= |s| && s[j..] == "output" + space + text
    ensures var start := j + 6 + |space|;
      && start + |text| == |s|
      && OccursAt(s, "output", j)
      && (forall i :: j + 6 <= i < start ==> s[i] == space[i - j - 6])
      && s[start..] == text
  {
    var start := j + 6 + |space|;
    assert s[j..][..6] == s[j..j + 6];
    forall i | j + 6 <= i < start
      ensures s[i] == space[i - j - 6]
    {
      assert s[j..][i - j] == s[i];
    }
    assert s[j..][6 + |space|..] == s[start..];
  }

  /** A tail free of newlines is one run of `IsNotNewline`. */
  lemma NewlineFreeRun(s: string, a: nat)
    requires a <= |s| && '\n' !in s[a..]
    ensures RunEnd(s, a, IsNotNewline) == |s|
  {
    forall i | a <= i < |s|
      ensures IsNotNewline(s[i])
    {
      assert s[a..][i - a] == s[i];
    }
    RunEndIs(s, a, IsNotNewline, |s|);
  }

  /** Conversely, `output`, white space, and a line that does not start with white space is matched up to its end. */
  lemma OutputRestMatches(s: string, j: nat, space: string, text: string)
    requires j <= |s| && IsBoundary(s, j)
    requires |space| > 0 && AllSpace(space) && '\n' !in text
    requires |text| == 0 || !IsSpace(text[0])
    requires s[j..] == "output" + space + text
    ensures MatchAt(OutputRest, s, j) == Some(Match(|s|, [text]))
  {
    var start := j + 6 + |space|;
    OutputRestParts(s, j, space, text);
    assert start < |s| ==> s[start] == s[start..][0];
    RunEndIs(s, j + 6, IsSpace, start);
    NewlineFreeRun(s, start);
    OutputRestAt(s, j, start);
    assert s[start..|s|] == s[start..];
  }

  /** The pieces of a repeat header, each at its own position. */
  predicate RepeatPiecesAt(s: string, j: nat, name: string, low: string, high: string) {
    var nameEnd := j + 7 + |name|;
    var lowEnd := nameEnd + 6 + |low|;
    var highEnd := lowEnd + 4 + |high|;
    && OccursAt(s, "repeat ", j)
    && OccursAt(s, name, j + 7)
    && OccursAt(s, " from ", nameEnd)
    && OccursAt(s, low, nameEnd + 6)
    && OccursAt(s, " to ", lowEnd)
    && OccursAt(s, high, lowEnd + 4)
    && OccursAt(s, ":", highEnd)
  }

  lemma RepeatTextPieces(s: string, j: nat, name: string, low: string, high: string)
    ensures OccursAt(s, RepeatText(name, low, high), j) <==> RepeatPiecesAt(s, j, name, low, high)
  {
    OccursAtConcat(s, "repeat " + name + " from " + low + " to " + high, ":", j);
    OccursAtConcat(s, "repeat " + name + " from " + low + " to ", high, j);
    OccursAtConcat(s, "repeat " + name + " from " + low, " to ", j);
    OccursAtConcat(s, "repeat " + name + " from ", low, j);
    OccursAtConcat(s, "repeat " + name, " from ", j);
    OccursAtConcat(s, "repeat ", name, j);
  }

  /** A non-empty run of `p` from `a` ends at `e`, where `next` follows. */
  predicate RunBefore(s: string, a: nat, p: char -> bool, e: nat, next: string) {
    a < e <= |s| && RunEnd(s, a, p) == e && OccursAt(s, next, e)
  }

  /** The scan of `MatchRepeatHeader`, given where its three runs end. */
  lemma RepeatHeaderAt(s: string, j: nat, nameEnd: nat, lowEnd: nat, highEnd: nat)
    requires j <= |s| && IsBoundary(s, j) && OccursAt(s, "repeat ", j)
    requires RunBefore(s, j + 7, IsWordChar, nameEnd, " from ")
    requires RunBefore(s, nameEnd + 6, IsDigit, lowEnd, " to ")
    requires RunBefore(s, lowEnd + 4, IsDigit, highEnd, ":")
    ensures MatchRepeatHeader(s, j)
      == Some(Match(highEnd + 1, [s[j + 7..nameEnd], s[nameEnd + 6..lowEnd], s[lowEnd + 4..highEnd]]))
  {
    OccursAtFirst(s, ":", highEnd);
  }

  /** What the repeat scan established when it succeeds. */
  lemma RepeatHeaderFound(s: string, j: nat) returns (nameEnd: nat, lowEnd: nat, highEnd: nat)
    requires j <= |s| && MatchRepeatHeader(s, j).Some?
    ensures IsBoundary(s, j) && OccursAt(s, "repeat ", j)
    ensures RunBefore(s, j + 7, IsWordChar, nameEnd, " from ")
    ensures RunBefore(s, nameEnd + 6, IsDigit, lowEnd, " to ")
    ensures RunBefore(s, lowEnd + 4, IsDigit, highEnd, ":")
  {
    assert IsBoundary(s, j) && OccursAt(s, "repeat ", j);
    nameEnd := RunEnd(s, j + 7, IsWordChar);
    assert nameEnd != j + 7 && OccursAt(s, " from ", nameEnd);
    lowEnd := RunEnd(s, nameEnd + 6, IsDigit);
    assert lowEnd != nameEnd + 6 && OccursAt(s, " to ", lowEnd);
    highEnd := RunEnd(s, lowEnd + 4, IsDigit);
    assert s[highEnd..highEnd + 1] == [s[highEnd]];
  }

  /** Whatever the repeat pattern matches is a header `repeat NAME from LOW to HIGH:` with a word name and digit bounds. */
  lemma RepeatHeaderSound(s: string, j: nat)
    requires j <= |s| && MatchAt(RepeatHeader, s, j).Some?
    ensures var m := MatchAt(RepeatHeader, s, j).value;
      && |m.groups[0]| > 0 && AllWordChars(m.groups[0])
      && |m.groups[1]| > 0 && AllDigits(m.groups[1])
      && |m.groups[2]| > 0 && AllDigits(m.groups[2])
      && OccursAt(s, RepeatText(m.groups[0], m.groups[1], m.groups[2]), j)
      && m.end == j + |RepeatText(m.groups[0], m.groups[1], m.groups[2])|
  {
    var nameEnd, lowEnd, highEnd := RepeatHeaderFound(s, j);
    RepeatHeaderAt(s, j, nameEnd, lowEnd, highEnd);
    RepeatSlicesArePieces(s, j, nameEnd, lowEnd, highEnd);
    RepeatTextPieces(s, j, s[j + 7..nameEnd], s[nameEnd + 6..lowEnd], s[lowEnd + 4..highEnd]);
  }

  /** The three slices the repeat scan captures are the pieces of a header. */
  lemma RepeatSlicesArePieces(s: string, j: nat, nameEnd: nat, lowEnd: nat, highEnd: nat)
    requires OccursAt(s, "repeat ", j)
    requires RunBefore(s, j + 7, IsWordChar, nameEnd, " from ")
    requires RunBefore(s, nameEnd + 6, IsDigit, lowEnd, " to ")
    requires RunBefore(s, lowEnd + 4, IsDigit, highEnd, ":")
    ensures var name, low, high := s[j + 7..nameEnd], s[nameEnd + 6..lowEnd], s[lowEnd + 4..highEnd];
      && AllWordChars(name) && AllDigits(low) && AllDigits(high)
      && RepeatPiecesAt(s, j, name, low, high)
  {
    RunSlice(s, j + 7, nameEnd, IsWordChar);
    RunSlice(s, nameEnd + 6, lowEnd, IsDigit);
    RunSlice(s, lowEnd + 4, highEnd, IsDigit);
    RepeatSlicesAt(s, j, nameEnd, lowEnd, highEnd);
  }

  lemma RepeatSlicesAt(s: string, j: nat, nameEnd: nat, lowEnd: nat, highEnd: nat)
    requires OccursAt(s, "repeat ", j)
    requires j + 7 < nameEnd <= |s| && OccursAt(s, " from ", nameEnd)
    requires nameEnd + 6 < lowEnd <= |s| && OccursAt(s, " to ", lowEnd)
    requires lowEnd + 4 < highEnd < |s| && OccursAt(s, ":", highEnd)
    ensures RepeatPiecesAt(s, j, s[j + 7..nameEnd], s[nameEnd + 6..lowEnd], s[lowEnd + 4..highEnd])
  {
  }

  /** The pieces of a header at the positions where each one starts. */
  lemma RepeatPiecesAtEnds(s: string, j: nat, name: string, low: string, high: string, nameEnd: nat, lowEnd: nat, highEnd: nat)
    requires nameEnd == j + 7 + |name| && lowEnd == nameEnd + 6 + |low| && highEnd == lowEnd + 4 + |high|
    requires RepeatPiecesAt(s, j, name, low, high)
    ensures OccursAt(s, "repeat ", j) && OccursAt(s, name, j + 7) && OccursAt(s, " from ", nameEnd)
    ensures OccursAt(s, low, nameEnd + 6) && OccursAt(s, " to ", lowEnd) && OccursAt(s, high, lowEnd + 4)
    ensures OccursAt(s, ":", highEnd)
    ensures s[j + 7..nameEnd] == name && s[nameEnd + 6..lowEnd] == low && s[lowEnd + 4..highEnd] == high
  {
  }

  /** A run of class characters that is followed by a piece starting outside the class ends where the piece starts. */
  lemma RunUpTo(s: string, a: nat, w: string, p: char -> bool, e: nat, next: string)
    requires e == a + |w| && OccursAt(s, w, a)
    requires forall k :: 0 <= k < |w| ==> p(w[k])
    requires OccursAt(s, next, e) && |next| > 0 && !p(next[0])
    ensures e < |s| && s[e] == next[0] && RunEnd(s, a, p) == e
  {
    OccursAtFirst(s, next, e);
    RunOfOccurrence(s, a, w, p, e);
  }

  /** The repeat scan, given the three runs and the pieces between them, captures the runs. */
  lemma RepeatScanMatch(s: string, j: nat, name: string, low: string, high: string, nameEnd: nat, lowEnd: nat, highEnd: nat, end: nat)
    requires j <= |s| && IsBoundary(s, j) && OccursAt(s, "repeat ", j)
    requires RunBefore(s, j + 7, IsWordChar, nameEnd, " from ")
    requires RunBefore(s, nameEnd + 6, IsDigit, lowEnd, " to ")
    requires RunBefore(s, lowEnd + 4, IsDigit, highEnd, ":")
    requires s[j + 7..nameEnd] == name && s[nameEnd + 6..lowEnd] == low && s[lowEnd + 4..highEnd] == high
    requires end == highEnd + 1
    ensures MatchRepeatHeader(s, j) == Some(Match(end, [name, low, high]))
  {
    RepeatHeaderAt(s, j, nameEnd, lowEnd, highEnd);
    SameMatch(MatchRepeatHeader(s, j), highEnd + 1, s[j + 7..nameEnd], s[nameEnd + 6..lowEnd], s[lowEnd + 4..highEnd],
      end, name, low, high);
  }

  /** A three-group match is determined by its end and its groups. */
  lemma SameMatch(m: Option<Match>, e0: nat, a: string, b: string, c: string, end: nat, x: string, y: string, z: string)
    requires m == Some(Match(e0, [a, b, c])) && e0 == end && a == x && b == y && c == z
    ensures m == Some(Match(end, [x, y, z]))
  {
  }

  lemma RepeatTextLength(name: string, low: string, high: string)
    ensures |RepeatText(name, low, high)| == |name| + |low| + |high| + 18
  {
  }

  /** Conversely, a header `repeat NAME from LOW to HIGH:` with a word name and digit bounds is matched, with the three parts as groups. */
  lemma RepeatHeaderMatches(s: string, j: nat, name: string, low: string, high: string)
    requires j <= |s| && IsBoundary(s, j)
    requires |name| > 0 && AllWordChars(name)
    requires |low| > 0 && AllDigits(low) && |high| > 0 && AllDigits(high)
    requires OccursAt(s, RepeatText(name, low, high), j)
    ensures MatchAt(RepeatHeader, s, j) == Some(Match(j + |RepeatText(name, low, high)|, [name, low, high]))
  {
    RepeatTextPieces(s, j, name, low, high);
    RepeatTextLength(name, low, high);
    RepeatLayoutMatches(s, j, name, low, high, j + |RepeatText(name, low, high)|);
  }

  /** The same, for a header given as its pieces. */
  lemma RepeatLayoutMatches(s: string, j: nat, name: string, low: string, high: string, end: nat)
    requires j <= |s| && IsBoundary(s, j)
    requires |name| > 0 && AllWordChars(name)
    requires |low| > 0 && AllDigits(low) && |high| > 0 && AllDigits(high)
    requires RepeatPiecesAt(s, j, name, low, high) && end == j + |name| + |low| + |high| + 18
    ensures MatchAt(RepeatHeader, s, j) == Some(Match(end, [name, low, high]))
  {
    var nameEnd := j + 7 + |name|;
    var lowEnd := nameEnd + 6 + |low|;
    var highEnd := lowEnd + 4 + |high|;
    RepeatPiecesAtEnds(s, j, name, low, high, nameEnd, lowEnd, highEnd);
    RepeatPiecesMatch(s, j, name, low, high, nameEnd, lowEnd, highEnd, end);
  }

  /** The same, for a header given piece by piece. */
  lemma RepeatPiecesMatch(s: string, j: nat, name: string, low: string, high: string, nameEnd: nat, lowEnd: nat, highEnd: nat, end: nat)
    requires j <= |s| && IsBoundary(s, j)
    requires |name| > 0 && AllWordChars(name)
    requires |low| > 0 && AllDigits(low) && |high| > 0 && AllDigits(high)
    requires nameEnd == j + 7 + |name| && lowEnd == nameEnd + 6 + |low| && highEnd == lowEnd + 4 + |high| && end == highEnd + 1
    requires OccursAt(s, "repeat ", j) && OccursAt(s, name, j + 7) && OccursAt(s, " from ", nameEnd)
    requires OccursAt(s, low, nameEnd + 6) && OccursAt(s, " to ", lowEnd) && OccursAt(s, high, lowEnd + 4)
    requires OccursAt(s, ":", highEnd)
    requires s[j + 7..nameEnd] == name && s[nameEnd + 6..lowEnd] == low && s[lowEnd + 4..highEnd] == high
    ensures MatchAt(RepeatHeader, s, j) == Some(Match(end, [name, low, high]))
  {
    RepeatRunsOfPieces(s, j, name, low, high, nameEnd, lowEnd, highEnd);
    RepeatScanMatch(s, j, name, low, high, nameEnd, lowEnd, highEnd, end);
  }

  /** The runs of a header given piece by piece end where the pieces do. */
  lemma RepeatRunsOfPieces(s: string, j: nat, name: string, low: string, high: string, nameEnd: nat, lowEnd: nat, highEnd: nat)
    requires |name| > 0 && AllWordChars(name)
    requires |low| > 0 && AllDigits(low) && |high| > 0 && AllDigits(high)
    requires nameEnd == j + 7 + |name| && lowEnd == nameEnd + 6 + |low| && highEnd == lowEnd + 4 + |high|
    requires OccursAt(s, name, j + 7) && OccursAt(s, " from ", nameEnd)
    requires OccursAt(s, low, nameEnd + 6) && OccursAt(s, " to ", lowEnd) && OccursAt(s, high, lowEnd + 4)
    requires OccursAt(s, ":", highEnd)
    ensures RunBefore(s, j + 7, IsWordChar, nameEnd, " from ")
    ensures RunBefore(s, nameEnd + 6, IsDigit, lowEnd, " to ")
    ensures RunBefore(s, lowEnd + 4, IsDigit, highEnd, ":")
  {
    RunBeforeOf(s, j + 7, name, IsWordChar, nameEnd, " from ");
    RunBeforeOf(s, nameEnd + 6, low, IsDigit, lowEnd, " to ");
    RunBeforeOf(s, lowEnd + 4, high, IsDigit, highEnd, ":");
  }

  lemma RunBeforeOf(s: string, a: nat, w: string, p: char -> bool, e: nat, next: string)
    requires e == a + |w| && |w| > 0 && OccursAt(s, w, a)
    requires forall k :: 0 <= k < |w| ==> p(w[k])
    requires OccursAt(s, next, e) && |next| > 0 && !p(next[0])
    ensures RunBefore(s, a, p, e, next)
  {
    RunUpTo(s, a, w, p, e, next);
  }

  /** The first index of `s` that is not a digit. */
  lemma FirstNonDigit(s: string) returns (d: nat)
    requires !AllDigits(s)
    ensures d < |s| && !IsDigit(s[d])
    ensures forall i :: 0 <= i < d ==> IsDigit(s[i])
  {
    d := RunEnd(s, 0, IsDigit);
    RunEndAll(s, 0, IsDigit);
  }

  /** The repeat scan gives up when the lower bound is not followed by ` to `. */
  lemma RepeatLowFails(s: string, j: nat, nameEnd: nat, lowEnd: nat)
    requires j + 7 <= |s| && nameEnd == RunEnd(s, j + 7, IsWordChar) && nameEnd + 6 <= |s|
    requires lowEnd == RunEnd(s, nameEnd + 6, IsDigit)
    requires lowEnd == nameEnd + 6 || !OccursAt(s, " to ", lowEnd)
    ensures MatchRepeatHeader(s, j).None?
  {
  }

  /** The repeat scan gives up when the upper bound is not followed by `:`. */
  lemma RepeatHighFails(s: string, j: nat, nameEnd: nat, lowEnd: nat, highEnd: nat)
    requires j + 7 <= |s| && nameEnd == RunEnd(s, j + 7, IsWordChar) && nameEnd + 6 <= |s|
    requires lowEnd == RunEnd(s, nameEnd + 6, IsDigit) && lowEnd + 4 <= |s|
    requires highEnd == RunEnd(s, lowEnd + 4, IsDigit)
    requires highEnd == lowEnd + 4 || highEnd == |s| || s[highEnd] != ':'
    ensures MatchRepeatHeader(s, j).None?
  {
  }

  /** A bound that is not all digits ends its digit run at its first non-digit. */
  lemma DigitRunStops(s: string, a: nat, w: string) returns (d: nat)
    requires OccursAt(s, w, a) && !AllDigits(w)
    ensures d < |w| && RunEnd(s, a, IsDigit) == a + d && s[a + d] == w[d] && !IsDigit(w[d])
  {
    d := FirstNonDigit(w);
    OccursAtChars(s, w, a);
    RunEndIs(s, a, IsDigit, a + d);
  }

  lemma NotInAt(w: string, c: char, d: nat)
    requires c !in w && d < |w|
    ensures w[d] != c
  {
  }

  /**
    The repeat pattern does not fire on `repeat NAME from LOW` when the lower
    bound is not a non-empty digit string (and has no space to fake the
    ` to `). An empty bound is rejected when no digit follows `from `, since
    `(\d+)` needs one.
   */
  lemma RepeatRejectsLowBound(s: string, j: nat, name: string, low: string, nameEnd: nat)
    requires j <= |s| && nameEnd == j + 7 + |name|
    requires |name| > 0 && AllWordChars(name)
    requires !(|low| > 0 && AllDigits(low)) && ' ' !in low
    requires OccursAt(s, name, j + 7) && OccursAt(s, " from ", nameEnd) && OccursAt(s, low, nameEnd + 6)
    requires |low| == 0 ==> nameEnd + 6 == |s| || !IsDigit(s[nameEnd + 6])
    ensures MatchAt(RepeatHeader, s, j).None?
  {
    OccursAtFirst(s, " from ", nameEnd);
    RunOfOccurrence(s, j + 7, name, IsWordChar, nameEnd);
    if |low| == 0 {
      RunEndIs(s, nameEnd + 6, IsDigit, nameEnd + 6);
      RepeatLowFails(s, j, nameEnd, nameEnd + 6);
    } else {
      var d := DigitRunStops(s, nameEnd + 6, low);
      NotInAt(low, ' ', d);
      OccursAtIndex(s, " to ", nameEnd + 6 + d, 0);
      RepeatLowFails(s, j, nameEnd, nameEnd + 6 + d);
    }
  }

  /**
    The repeat pattern does not fire on `repeat NAME from LOW to HIGH` when
    the upper bound is not a non-empty digit string (and has no colon to end
    the header early). An empty bound is rejected when no digit follows ` to `.
   */
  lemma RepeatRejectsHighBound(s: string, j: nat, name: string, low: string, high: string, nameEnd: nat, lowEnd: nat)
    requires j <= |s| && nameEnd == j + 7 + |name| && lowEnd == nameEnd + 6 + |low|
    requires |name| > 0 && AllWordChars(name)
    requires |low| > 0 && AllDigits(low)
    requires !(|high| > 0 && AllDigits(high)) && ':' !in high
    requires OccursAt(s, name, j + 7) && OccursAt(s, " from ", nameEnd) && OccursAt(s, low, nameEnd + 6)
    requires OccursAt(s, " to ", lowEnd) && OccursAt(s, high, lowEnd + 4)
    requires |high| == 0 ==> lowEnd + 4 == |s| || !IsDigit(s[lowEnd + 4])
    ensures MatchAt(RepeatHeader, s, j).None?
  {
    OccursAtFirst(s, " from ", nameEnd);
    OccursAtFirst(s, " to ", lowEnd);
    RunOfOccurrence(s, j + 7, name, IsWordChar, nameEnd);
    RunOfOccurrence(s, nameEnd + 6, low, IsDigit, lowEnd);
    RepeatHighRunStops(s, j, high, nameEnd, lowEnd);
  }

  /** The scan gives up inside an upper bound that is not a non-empty digit string and has no colon. */
  lemma RepeatHighRunStops(s: string, j: nat, high: string, nameEnd: nat, lowEnd: nat)
    requires j + 7 <= |s| && nameEnd == RunEnd(s, j + 7, IsWordChar) && nameEnd + 6 <= |s|
    requires lowEnd == RunEnd(s, nameEnd + 6, IsDigit)
    requires !(|high| > 0 && AllDigits(high)) && ':' !in high && OccursAt(s, high, lowEnd + 4)
    requires |high| == 0 ==> lowEnd + 4 == |s| || !IsDigit(s[lowEnd + 4])
    ensures MatchRepeatHeader(s, j).None?
  {
    if |high| == 0 {
      RunEndIs(s, lowEnd + 4, IsDigit, lowEnd + 4);
      RepeatHighFails(s, j, nameEnd, lowEnd, lowEnd + 4);
    } else {
      var d := DigitRunStops(s, lowEnd + 4, high);
      NotInAt(high, ':', d);
      RepeatHighFails(s, j, nameEnd, lowEnd, lowEnd + 4 + d);
    }
  }
}
