/**
  The pieces of the Python runtime that the CobraLang translator leans on,
  stated over `string == seq<char>`: the regular-expression character
  classes `\w`, `\d` and `\s`, the `\b` word boundary, and the
  `str.splitlines`, `str.split` and `str.join` operations.
 */
module Text {

  /** `\w`: letters, digits and the underscore (ASCII only, see README). */
  predicate IsWordChar(c: char) {
    ('a' <= c <= 'z') || ('A' <= c <= 'Z') || ('0' <= c <= '9') || c == '_'
  }

  /** `\d` (ASCII only, see README). */
  predicate IsDigit(c: char) {
    '0' <= c <= '9'
  }

  /** `\s`: exactly the characters for which Python's `str.isspace()` holds. */
  predicate IsSpace(c: char) {
    || c == ' '
    || ('\t' <= c <= '\r')
    || ('\U{1C}' <= c <= '\U{1F}')
    || c == '\U{85}' || c == '\U{A0}' || c == '\U{1680}'
    || ('\U{2000}' <= c <= '\U{200A}')
    || c == '\U{2028}' || c == '\U{2029}' || c == '\U{202F}' || c == '\U{205F}' || c == '\U{3000}'
  }

  /** The characters at which `str.splitlines()` ends a line. */
  predicate IsLineBreak(c: char) {
    || c == '\n' || c == '\r' || c == '\U{0B}' || c == '\U{0C}'
    || ('\U{1C}' <= c <= '\U{1E}')
    || c == '\U{85}' || c == '\U{2028}' || c == '\U{2029}'
  }

  /** What `.` matches: anything but `'\n'`. */
  predicate IsNotNewline(c: char) {
    c != '\n'
  }

  /** What the lazy `.*?` before a closing quote can consume. */
  predicate IsQuotedChar(c: char) {
    c != '"' && c != '\n'
  }

  predicate IsNotLineBreak(c: char) {
    !IsLineBreak(c)
  }

  predicate AllWordChars(s: string) {
    forall i :: 0 <= i < |s| ==> IsWordChar(s[i])
  }

  predicate NoWordChars(s: string) {
    forall i :: 0 <= i < |s| ==> !IsWordChar(s[i])
  }

  predicate AllDigits(s: string) {
    forall i :: 0 <= i < |s| ==> IsDigit(s[i])
  }

  predicate AllSpace(s: string) {
    forall i :: 0 <= i < |s| ==> IsSpace(s[i])
  }

  /** A string that `str.splitlines()` would leave in one piece. */
  predicate LineFree(s: string) {
    forall i :: 0 <= i < |s| ==> !IsLineBreak(s[i])
  }

  /** `w` occurs in `s` starting at index `i`. */
  predicate OccursAt(s: string, w: string, i: nat) {
    i + |w| <= |s| && s[i..i + |w|] == w
  }

  /** An occurrence of `a + b` is an occurrence of `a` followed by one of `b`, and conversely. */
  lemma OccursAtConcat(s: string, a: string, b: string, i: nat)
    ensures OccursAt(s, a + b, i) <==> OccursAt(s, a, i) && OccursAt(s, b, i + |a|)
  {
    if OccursAt(s, a, i) && OccursAt(s, b, i + |a|) {
      assert s[i..i + |a + b|] == s[i..i + |a|] + s[i + |a|..i + |a| + |b|];
    }
    if OccursAt(s, a + b, i) {
      assert s[i..i + |a|] == (a + b)[..|a|];
      assert s[i + |a|..i + |a| + |b|] == (a + b)[|a|..];
    }
  }

  lemma OccursAtChars(s: string, w: string, i: nat)
    requires OccursAt(s, w, i)
    ensures forall k :: 0 <= k < |w| ==> s[i + k] == w[k]
  {
    forall k | 0 <= k < |w|
      ensures s[i + k] == w[k]
    {
      assert s[i..i + |w|][k] == s[i + k];
    }
  }

  /** An occurrence fixes each character it covers. */
  lemma OccursAtIndex(s: string, w: string, a: nat, k: nat)
    requires k < |w|
    ensures OccursAt(s, w, a) ==> s[a + k] == w[k]
  {
    if OccursAt(s, w, a) {
      assert s[a..a + |w|][k] == s[a + k];
    }
  }

  /** `\b` at index `i`: exactly one of the characters on either side of `i` is a word character. */
  predicate IsBoundary(s: string, i: nat)
    requires i <= |s|
  {
    (i > 0 && IsWordChar(s[i - 1])) != (i < |s| && IsWordChar(s[i]))
  }

  /** The regular expression `\bw\b` matches `s` at index `i`. */
  predicate WholeWordAt(s: string, w: string, i: nat) {
    OccursAt(s, w, i) && IsBoundary(s, i) && IsBoundary(s, i + |w|)
  }

  /**
    The end of the longest run of characters satisfying `p` that starts at `k`:
    what a greedy `p*` consumes from `k` on.
   */
  function RunEnd(s: string, k: nat, p: char -> bool): (e: nat)
    requires k <= |s|
    ensures k <= e <= |s|
    ensures e == |s| || !p(s[e])
    decreases |s| - k
  {
    if k == |s| || !p(s[k]) then k else RunEnd(s, k + 1, p)
  }

  /** Every character of the run satisfies the class. */
  lemma {:induction false} RunEndAll(s: string, k: nat, p: char -> bool)
    requires k <= |s|
    ensures forall i :: k <= i < RunEnd(s, k, p) ==> p(s[i])
    decreases |s| - k
  {
    if k < |s| && p(s[k]) {
      RunEndAll(s, k + 1, p);
    }
  }

  /** A run that is followed by a character outside the class (or by the end) is the longest one. */
  lemma {:induction false} RunEndIs(s: string, k: nat, p: char -> bool, e: nat)
    requires k <= e <= |s|
    requires forall i :: k <= i < e ==> p(s[i])
    requires e == |s| || !p(s[e])
    ensures RunEnd(s, k, p) == e
    decreases e - k
  {
    if k < e {
      RunEndIs(s, k + 1, p, e);
    }
  }

  /** An occurrence of a word made only of class characters, followed by a character outside the class, is the run there. */
  lemma RunOfOccurrence(s: string, a: nat, w: string, p: char -> bool, e: nat)
    requires e == a + |w| && OccursAt(s, w, a)
    requires forall k :: 0 <= k < |w| ==> p(w[k])
    requires e == |s| || !p(s[e])
    ensures RunEnd(s, a, p) == e
  {
    OccursAtChars(s, w, a);
    RunEndIs(s, a, p, e);
  }

  /** The first character of an occurrence. */
  lemma OccursAtFirst(s: string, w: string, a: nat)
    requires OccursAt(s, w, a) && |w| > 0
    ensures s[a] == w[0]
  {
    assert s[a..a + |w|][0] == s[a];
  }

  /** Every character of a run satisfies the class, read off the slice. */
  lemma RunSlice(s: string, a: nat, b: nat, p: char -> bool)
    requires a <= |s| && b == RunEnd(s, a, p)
    ensures forall k :: 0 <= k < b - a ==> p(s[a..b][k])
  {
    RunEndAll(s, a, p);
    forall k | 0 <= k < b - a
      ensures p(s[a..b][k])
    {
      assert s[a..b][k] == s[a + k];
    }
  }

  /** `sep.join(xs)` for a one-character separator. */
  function Join(xs: seq<string>, sep: char): string
    decreases |xs|
  {
    if |xs| == 0 then []
    else if |xs| == 1 then xs[0]
    else xs[0] + [sep] + Join(xs[1..], sep)
  }

  /** `s.split(sep)` for a one-character separator. */
  function Split(s: string, sep: char): (parts: seq<string>)
    ensures |parts| > 0
    ensures forall k :: 0 <= k < |parts| ==> sep !in parts[k]
    decreases |s|
  {
    var i := RunEnd(s, 0, c => c != sep);
    RunEndAll(s, 0, c => c != sep);
    if i == |s| then [s] else [s[..i]] + Split(s[i + 1..], sep)
  }

  /** Splitting a join on a separator none of the parts contains gives the parts back. */
  lemma {:induction false} SplitJoin(xs: seq<string>, sep: char)
    requires |xs| > 0
    requires forall k :: 0 <= k < |xs| ==> sep !in xs[k]
    ensures Split(Join(xs, sep), sep) == xs
    decreases |xs|
  {
    var s := Join(xs, sep);
    if |xs| == 1 {
      RunEndIs(s, 0, c => c != sep, |s|);
    } else {
      var rest := Join(xs[1..], sep);
      assert s == xs[0] + [sep] + rest;
      assert s[|xs[0]|] == sep;
      RunEndIs(s, 0, c => c != sep, |xs[0]|);
      assert s[..|xs[0]|] == xs[0];
      assert s[|xs[0]| + 1..] == rest;
      SplitJoin(xs[1..], sep);
      assert xs == [xs[0]] + xs[1..];
    }
  }

  /** Joining the parts of a split restores the string. */
  lemma {:induction false} JoinSplit(s: string, sep: char)
    ensures Join(Split(s, sep), sep) == s
    decreases |s|
  {
    var i := RunEnd(s, 0, c => c != sep);
    if i < |s| {
      var parts := Split(s[i + 1..], sep);
      JoinSplit(s[i + 1..], sep);
      assert Split(s, sep) == [s[..i]] + parts;
      assert ([s[..i]] + parts)[1..] == parts;
      assert s == s[..i] + [sep] + s[i + 1..];
    }
  }

  /**
    `s.splitlines()`: the lines of `s` without their terminators. Every
    line-break character ends a line, `"\r\n"` counts as one terminator, and
    a terminator at the very end does not start an extra empty line.
   */
  function SplitLines(s: string): (lines: seq<string>)
    ensures forall k :: 0 <= k < |lines| ==> LineFree(lines[k])
    decreases |s|
  {
    if |s| == 0 then []
    else
      var i := RunEnd(s, 0, IsNotLineBreak);
      RunEndAll(s, 0, IsNotLineBreak);
      if i == |s| then [s]
      else
        var next := if s[i] == '\r' && i + 1 < |s| && s[i + 1] == '\n' then i + 2 else i + 1;
        [s[..i]] + SplitLines(s[next..])
  }

  /** Lines joined with `'\n'` and terminated by one more `'\n'` split back into the same lines. */
  lemma {:induction false} SplitLinesJoin(xs: seq<string>)
    requires |xs| > 0
    requires forall k :: 0 <= k < |xs| ==> LineFree(xs[k])
    ensures SplitLines(Join(xs, '\n') + "\n") == xs
    decreases |xs|
  {
    var s := Join(xs, '\n') + "\n";
    JoinTerminated(xs);
    SplitLinesStep(s, |xs[0]|);
    if |xs| > 1 {
      SplitLinesJoin(xs[1..]);
      assert xs == [xs[0]] + xs[1..];
    }
  }

  /** The first line of a terminated join, its terminator, and what follows. */
  lemma JoinTerminated(xs: seq<string>)
    requires |xs| > 0
    ensures var s, n := Join(xs, '\n') + "\n", |xs[0]|;
      && n < |s| && s[..n] == xs[0] && s[n] == '\n'
      && s[n + 1..] == if |xs| == 1 then [] else Join(xs[1..], '\n') + "\n"
  {
    var s := Join(xs, '\n') + "\n";
    if |xs| == 1 {
      assert s == xs[0] + "\n";
    } else {
      assert s == xs[0] + "\n" + (Join(xs[1..], '\n') + "\n");
    }
  }

  /** A line of `s` ends at its first line break, here a `'\n'`. */
  lemma SplitLinesStep(s: string, n: nat)
    requires n < |s| && s[n] == '\n' && LineFree(s[..n])
    ensures SplitLines(s) == [s[..n]] + SplitLines(s[n + 1..])
  {
    forall i | 0 <= i < n
      ensures IsNotLineBreak(s[i])
    {
      assert s[..n][i] == s[i];
    }
    RunEndIs(s, 0, IsNotLineBreak, n);
  }
}
