/**
  The keyword scan of the editor's syntax highlighter. For every keyword of
  its table, in table order, the highlighter looks the keyword up with
  `str.find`, colours the occurrence, and searches again from the end of that
  occurrence. The colouring itself is a Qt call; here the scan produces the
  list of `(start, length, colour)` spans it would colour, in order.
 */
module Highlighter {
  import opened Text

  /** One coloured stretch of the block: `setFormat(start, length, colour)`. */
  datatype Span = Span(start: nat, length: nat, color: string)

  /** A keyword of the highlighter and the colour it is shown in. */
  datatype Entry = Entry(word: string, color: string)

  const Purple: string := "#BD93F9"
  const Cream: string := "#e7f3cb"

  /** The highlighter's keyword table, in the order the dictionary yields it. */
  const Keywords: seq<Entry> := [
    Entry("define", Purple),
    Entry("give", Purple),
    Entry("if", Purple),
    Entry("else if", Purple),
    Entry("otherwise", Purple),
    Entry("loop while", Purple),
    Entry("repeat", Purple),
    Entry("class", Purple),
    Entry("exit", Purple),
    Entry("skip", Purple),
    Entry("not", Purple),
    Entry("within", Purple),
    Entry("output", Cream)
  ]

  predicate NonEmptyWords(entries: seq<Entry>) {
    forall k :: 0 <= k < |entries| ==> |entries[k].word| > 0
  }

  // ---------------------------------------------------------------------------
  // str.find
  // ---------------------------------------------------------------------------

  /**
    `text.find(word, start)`: the first index at or after `start` where
    `word` occurs, or -1 when there is none.
   */
  function Find(text: string, word: string, start: nat): (r: int)
    ensures r == -1 || (start <= r && r + |word| <= |text|)
    decreases |text| - start
  {
    if start + |word| > |text| then -1
    else if OccursAt(text, word, start) then start
    else Find(text, word, start + 1)
  }

  /** `i` is the first occurrence of `word` at or after `start`. */
  ghost predicate FirstFrom(text: string, word: string, start: nat, i: nat) {
    start <= i && OccursAt(text, word, i) && forall j: nat :: start <= j < i ==> !OccursAt(text, word, j)
  }

  /** `word` does not occur at or after `start`. */
  ghost predicate NoneFrom(text: string, word: string, start: nat) {
    forall i: nat :: start <= i ==> !OccursAt(text, word, i)
  }

  /** A successful `find` returns the first occurrence. */
  lemma {:induction false} FindFirst(text: string, word: string, start: nat)
    requires Find(text, word, start) >= 0
    ensures FirstFrom(text, word, start, Find(text, word, start) as nat)
    decreases |text| - start
  {
    if start + |word| <= |text| && !OccursAt(text, word, start) {
      FindFirst(text, word, start + 1);
    }
  }

  /** A failing `find` means the word does not occur from `start` on. */
  lemma {:induction false} FindNone(text: string, word: string, start: nat)
    requires Find(text, word, start) < 0
    ensures NoneFrom(text, word, start)
    decreases |text| - start
  {
    if start + |word| <= |text| {
      FindNone(text, word, start + 1);
    }
  }

  /** Conversely, the first occurrence is what `find` returns. */
  lemma FindIsFirst(text: string, word: string, start: nat, i: nat)
    requires FirstFrom(text, word, start, i)
    ensures Find(text, word, start) == i
  {
    if Find(text, word, start) < 0 {
      FindNone(text, word, start);
    } else {
      FindFirst(text, word, start);
    }
  }

  /** And where the word does not occur, `find` returns -1. */
  lemma FindIsNone(text: string, word: string, start: nat)
    requires NoneFrom(text, word, start)
    ensures Find(text, word, start) == -1
  {
    if Find(text, word, start) >= 0 {
      FindFirst(text, word, start);
    }
  }

  // ---------------------------------------------------------------------------
  // The scan for one keyword
  // ---------------------------------------------------------------------------

  /**
    The starts that the `while index >= 0` loop reports for one word: the
    first occurrence from `start` on, then the scan again from the end of
    that occurrence.
   */
  function Occurrences(text: string, word: string, start: nat): seq<nat>
    requires |word| > 0
    decreases |text| - start
  {
    var i := Find(text, word, start);
    if i < 0 then [] else [i as nat] + Occurrences(text, word, i as nat + |word|)
  }

  /** Where `find` succeeds, the scan reports that index and goes on from the end of the occurrence. */
  lemma OccurrencesAtFound(text: string, word: string, next: nat, index: nat)
    requires |word| > 0 && Find(text, word, next) == index
    ensures Occurrences(text, word, next) == [index] + Occurrences(text, word, index + |word|)
  {
  }

  /** Every reported start is an occurrence of the word. */
  lemma {:induction false} OccurrencesFound(text: string, word: string, start: nat)
    requires |word| > 0
    ensures forall k :: 0 <= k < |Occurrences(text, word, start)| ==> OccursAt(text, word, Occurrences(text, word, start)[k])
    decreases |text| - start
  {
    var i := Find(text, word, start);
    if i >= 0 {
      FindFirst(text, word, start);
      OccurrencesFound(text, word, i as nat + |word|);
      OccurrencesAtFound(text, word, start, i as nat);
    }
  }

  /** The reported starts lie at or after `start`. */
  lemma {:induction false} OccurrencesAfter(text: string, word: string, start: nat)
    requires |word| > 0
    ensures forall k :: 0 <= k < |Occurrences(text, word, start)| ==> start <= Occurrences(text, word, start)[k]
    decreases |text| - start
  {
    var i := Find(text, word, start);
    if i >= 0 {
      OccurrencesAfter(text, word, i as nat + |word|);
      OccurrencesAtFound(text, word, start, i as nat);
    }
  }

  /** The reported spans do not overlap and come in increasing order. */
  lemma {:induction false} OccurrencesApart(text: string, word: string, start: nat)
    requires |word| > 0
    ensures forall k, l :: 0 <= k < l < |Occurrences(text, word, start)| ==>
      Occurrences(text, word, start)[k] + |word| <= Occurrences(text, word, start)[l]
    decreases |text| - start
  {
    var i := Find(text, word, start);
    if i >= 0 {
      OccurrencesAfter(text, word, i as nat + |word|);
      OccurrencesApart(text, word, i as nat + |word|);
      OccurrencesAtFound(text, word, start, i as nat);
      ConsApart(Occurrences(text, word, start), i as nat, Occurrences(text, word, i as nat + |word|), |word|);
    }
  }

  /** A first start followed by later, separated starts gives separated starts. */
  lemma ConsApart(starts: seq<nat>, first: nat, rest: seq<nat>, len: nat)
    requires starts == [first] + rest
    requires forall k :: 0 <= k < |rest| ==> first + len <= rest[k]
    requires forall k, l :: 0 <= k < l < |rest| ==> rest[k] + len <= rest[l]
    ensures forall k, l :: 0 <= k < l < |starts| ==> starts[k] + len <= starts[l]
  {
    forall k, l | 0 <= k < l < |starts|
      ensures starts[k] + len <= starts[l]
    {
      if k == 0 {
        assert starts[l] == rest[l - 1];
      } else {
        assert starts[k] == rest[k - 1] && starts[l] == rest[l - 1];
      }
    }
  }

  /** Nothing is reported exactly when the word does not occur from `start` on. */
  lemma OccurrencesEmpty(text: string, word: string, start: nat)
    requires |word| > 0
    ensures |Occurrences(text, word, start)| == 0 <==> NoneFrom(text, word, start)
  {
    if Find(text, word, start) < 0 {
      FindNone(text, word, start);
    } else {
      FindFirst(text, word, start);
    }
  }

  /**
    An independent description of the scan from `start`: the first
    occurrence from `start` on, then a scan from the end of that occurrence;
    nothing when `word` does not occur from `start` on.
   */
  ghost predicate GreedyScan(text: string, word: string, start: nat, starts: seq<nat>)
    decreases |starts|
  {
    if |starts| == 0 then NoneFrom(text, word, start)
    else FirstFrom(text, word, start, starts[0]) && GreedyScan(text, word, starts[0] + |word|, starts[1..])
  }

  lemma GreedyCons(text: string, word: string, start: nat, first: nat, rest: seq<nat>)
    requires FirstFrom(text, word, start, first) && GreedyScan(text, word, first + |word|, rest)
    ensures GreedyScan(text, word, start, [first] + rest)
  {
    assert ([first] + rest)[1..] == rest;
  }

  /** The scan is a greedy scan. */
  lemma {:induction false} OccurrencesGreedy(text: string, word: string, start: nat)
    requires |word| > 0
    ensures GreedyScan(text, word, start, Occurrences(text, word, start))
    decreases |text| - start
  {
    var i := Find(text, word, start);
    if i >= 0 {
      FindFirst(text, word, start);
      OccurrencesGreedy(text, word, i as nat + |word|);
      OccurrencesAtFound(text, word, start, i as nat);
      GreedyCons(text, word, start, i as nat, Occurrences(text, word, i as nat + |word|));
    } else {
      FindNone(text, word, start);
    }
  }

  /** Conversely, a greedy scan is what the loop reports: the description determines the scan. */
  lemma {:induction false} GreedyIsOccurrences(text: string, word: string, start: nat, starts: seq<nat>)
    requires |word| > 0 && GreedyScan(text, word, start, starts)
    ensures starts == Occurrences(text, word, start)
    decreases |starts|
  {
    if |starts| > 0 {
      FindIsFirst(text, word, start, starts[0]);
      GreedyIsOccurrences(text, word, starts[0] + |word|, starts[1..]);
      OccurrencesAtFound(text, word, start, starts[0]);
      assert starts == [starts[0]] + starts[1..];
    } else {
      FindIsNone(text, word, start);
    }
  }

  /** Every occurrence at or after `start` lies within a reported span: the scan misses only occurrences that overlap one it reported. */
  lemma OccurrenceCovered(text: string, word: string, start: nat, p: nat) returns (k: nat)
    requires |word| > 0 && start <= p && OccursAt(text, word, p)
    ensures k < |Occurrences(text, word, start)|
    ensures Occurrences(text, word, start)[k] <= p < Occurrences(text, word, start)[k] + |word|
  {
    OccurrencesGreedy(text, word, start);
    k := CoveringSpan(text, word, start, Occurrences(text, word, start), p);
  }

  /** The span of a greedy scan that covers a given occurrence. */
  lemma {:induction false} CoveringSpan(text: string, word: string, start: nat, starts: seq<nat>, p: nat) returns (k: nat)
    requires GreedyScan(text, word, start, starts)
    requires start <= p && OccursAt(text, word, p)
    ensures k < |starts| && starts[k] <= p < starts[k] + |word|
    decreases |starts|
  {
    assert |starts| > 0;
    if p < starts[0] + |word| {
      k := 0;
    } else {
      var j := CoveringSpan(text, word, starts[0] + |word|, starts[1..], p);
      k := j + 1;
    }
  }

  /** `word` has no border: no proper suffix of it is also a prefix, so two occurrences never overlap. */
  predicate Unbordered(word: string) {
    forall d :: 0 < d < |word| ==> word[d..] != word[..|word| - d]
  }

  /** Two overlapping occurrences at different places give the word a border. */
  lemma OverlapBorder(text: string, word: string, a: nat, b: nat)
    requires OccursAt(text, word, a) && OccursAt(text, word, b) && a < b < a + |word|
    ensures word[b - a..] == word[..|word| - (b - a)]
  {
    var d := b - a;
    assert text[a..a + |word|][d..] == text[b..a + |word|];
    assert text[b..b + |word|][..|word| - d] == text[b..a + |word|];
  }

  /** An unbordered word is reported at every one of its occurrences. */
  lemma UnborderedAllReported(text: string, word: string, p: nat)
    requires |word| > 0 && Unbordered(word) && OccursAt(text, word, p)
    ensures p in Occurrences(text, word, 0)
  {
    var starts := Occurrences(text, word, 0);
    var k := OccurrenceCovered(text, word, 0, p);
    OccurrencesFound(text, word, 0);
    if starts[k] < p {
      OverlapBorder(text, word, starts[k], p);
    }
  }

  // ---------------------------------------------------------------------------
  // Spans
  // ---------------------------------------------------------------------------

  /** The spans coloured at the given starts. */
  function SpansAt(starts: seq<nat>, len: nat, color: string): (spans: seq<Span>)
    ensures |spans| == |starts|
    decreases |starts|
  {
    if |starts| == 0 then [] else [Span(starts[0], len, color)] + SpansAt(starts[1..], len, color)
  }

  /** A span is coloured exactly when its start is one of the starts, with the word's length and colour. */
  lemma {:induction false} SpansAtContains(starts: seq<nat>, len: nat, color: string, sp: Span)
    ensures sp in SpansAt(starts, len, color) <==> sp.start in starts && sp.length == len && sp.color == color
    decreases |starts|
  {
    if |starts| > 0 {
      SpansAtContains(starts[1..], len, color, sp);
      assert starts == [starts[0]] + starts[1..];
    }
  }

  /** The spans one keyword contributes. */
  function KeywordSpans(text: string, e: Entry): seq<Span>
    requires |e.word| > 0
  {
    SpansAt(Occurrences(text, e.word, 0), |e.word|, e.color)
  }

  /** `highlightBlock(text)`: the spans of every keyword, keyword by keyword in table order. */
  function Highlight(text: string, entries: seq<Entry>): seq<Span>
    requires NonEmptyWords(entries)
    decreases |entries|
  {
    if |entries| == 0 then [] else KeywordSpans(text, entries[0]) + Highlight(text, entries[1..])
  }

  /** The spans of the whole table are the spans of its keywords. */
  lemma {:induction false} HighlightContains(text: string, entries: seq<Entry>, sp: Span)
    requires NonEmptyWords(entries)
    ensures sp in Highlight(text, entries) <==> exists k :: 0 <= k < |entries| && sp in KeywordSpans(text, entries[k])
    decreases |entries|
  {
    if |entries| > 0 {
      HighlightContains(text, entries[1..], sp);
      if sp in KeywordSpans(text, entries[0]) {
        assert 0 < |entries|;
      }
      if exists k :: 1 <= k < |entries| && sp in KeywordSpans(text, entries[k]) {
        var k :| 1 <= k < |entries| && sp in KeywordSpans(text, entries[k]);
        assert entries[1..][k - 1] == entries[k];
      }
    }
  }

  /** `sp` covers an occurrence of the keyword of `e`, in its colour. */
  predicate EntrySpan(text: string, e: Entry, sp: Span) {
    sp.length == |e.word| && sp.color == e.color && OccursAt(text, e.word, sp.start)
  }

  /** Every reported span covers an occurrence of a keyword of the table, in that keyword's colour. */
  lemma HighlightSound(text: string, entries: seq<Entry>, sp: Span)
    requires NonEmptyWords(entries) && sp in Highlight(text, entries)
    ensures exists k :: 0 <= k < |entries| && EntrySpan(text, entries[k], sp)
  {
    HighlightContains(text, entries, sp);
    var k :| 0 <= k < |entries| && sp in KeywordSpans(text, entries[k]);
    SpansAtContains(Occurrences(text, entries[k].word, 0), |entries[k].word|, entries[k].color, sp);
    OccurrencesFound(text, entries[k].word, 0);
    assert EntrySpan(text, entries[k], sp);
  }

  /** A text in which no keyword occurs gets no colour. */
  lemma HighlightNothing(text: string, entries: seq<Entry>)
    requires NonEmptyWords(entries)
    requires forall k, i: nat :: 0 <= k < |entries| ==> !OccursAt(text, entries[k].word, i)
    ensures Highlight(text, entries) == []
  {
    if Highlight(text, entries) != [] {
      HighlightSound(text, entries, Highlight(text, entries)[0]);
    }
  }

  // ---------------------------------------------------------------------------
  // The loops as written
  // ---------------------------------------------------------------------------

  /** The `while index >= 0` loop for one keyword. */
  method ScanKeyword(text: string, word: string, color: string) returns (spans: seq<Span>)
    requires |word| > 0
    ensures spans == SpansAt(Occurrences(text, word, 0), |word|, color)
  {
    spans := [];
    ghost var next: nat := 0;
    var index := Find(text, word, 0);
    while index >= 0
      invariant next <= |text| && index == Find(text, word, next)
      invariant spans + SpansAt(Occurrences(text, word, next), |word|, color) == SpansAt(Occurrences(text, word, 0), |word|, color)
      decreases |text| - next
    {
      var length := |word|;
      ScanStep(text, word, color, next, index as nat, length, spans);
      spans := spans + [Span(index as nat, length, color)];
      next := index as nat + length;
      index := Find(text, word, index as nat + length);
    }
  }

  /** One turn of the loop: the span at `index` joins those already coloured, and the scan goes on from its end. */
  lemma ScanStep(text: string, word: string, color: string, next: nat, index: nat, length: nat, done: seq<Span>)
    requires |word| > 0 && length == |word| && Find(text, word, next) == index
    ensures done + SpansAt(Occurrences(text, word, next), |word|, color)
      == done + [Span(index, length, color)] + SpansAt(Occurrences(text, word, index + length), |word|, color)
  {
    var rest := Occurrences(text, word, index + length);
    OccurrencesAtFound(text, word, next, index);
    SpansAtCons(Occurrences(text, word, next), index, rest, |word|, color);
    AppendAssoc(done, [Span(index, length, color)], SpansAt(rest, |word|, color));
  }

  lemma SpansAtCons(starts: seq<nat>, first: nat, rest: seq<nat>, len: nat, color: string)
    requires starts == [first] + rest
    ensures SpansAt(starts, len, color) == [Span(first, len, color)] + SpansAt(rest, len, color)
  {
    assert starts[1..] == rest;
  }

  lemma AppendAssoc(a: seq<Span>, b: seq<Span>, c: seq<Span>)
    ensures a + (b + c) == a + b + c
  {
  }

  /** `highlightBlock` over a keyword table: the scan for each keyword in turn. */
  method HighlightWith(text: string, entries: seq<Entry>) returns (spans: seq<Span>)
    requires NonEmptyWords(entries)
    ensures spans == Highlight(text, entries)
  {
    spans := [];
    for n := 0 to |entries|
      invariant spans + Highlight(text, entries[n..]) == Highlight(text, entries)
    {
      HighlightStep(text, entries, n);
      var found := ScanKeyword(text, entries[n].word, entries[n].color);
      spans := spans + found;
    }
    assert entries[|entries|..] == [];
  }

  lemma HighlightStep(text: string, entries: seq<Entry>, n: nat)
    requires NonEmptyWords(entries) && n < |entries|
    ensures Highlight(text, entries[n..]) == KeywordSpans(text, entries[n]) + Highlight(text, entries[n + 1..])
  {
    assert entries[n..][1..] == entries[n + 1..];
  }

  lemma KeywordsNonEmpty()
    ensures NonEmptyWords(Keywords)
  {
  }

  /** `highlightBlock(text)` with the editor's table. */
  method HighlightBlock(text: string) returns (spans: seq<Span>)
    ensures spans == Highlight(text, Keywords)
    ensures forall sp :: sp in spans ==> exists k :: 0 <= k < |Keywords| && EntrySpan(text, Keywords[k], sp)
  {
    KeywordsNonEmpty();
    spans := HighlightWith(text, Keywords);
    forall sp | sp in spans
      ensures exists k :: 0 <= k < |Keywords| && EntrySpan(text, Keywords[k], sp)
    {
      HighlightSound(text, Keywords, sp);
    }
  }

  // ---------------------------------------------------------------------------
  // Plain substring search
  // ---------------------------------------------------------------------------

  /** `if` is coloured wherever it occurs, also inside longer words. */
  lemma IfAlwaysColoured(text: string, p: nat)
    requires OccursAt(text, "if", p)
    ensures Span(p, 2, Purple) in Highlight(text, Keywords)
  {
    KeywordsNonEmpty();
    assert Unbordered("if") by {
      assert "if"[1..] != "if"[..1] by { assert "if"[1..][0] == 'f'; }
    }
    UnborderedAllReported(text, "if", p);
    SpansAtContains(Occurrences(text, "if", 0), 2, Purple, Span(p, 2, Purple));
    assert Keywords[2] == Entry("if", Purple);
    HighlightContains(text, Keywords, Span(p, 2, Purple));
  }

  /** `gift` gets `if` coloured inside it, wherever it stands. */
  lemma IfInsideGift(u: string, v: string)
    ensures Span(|u| + 1, 2, Purple) in Highlight(u + "gift" + v, Keywords)
  {
    var text := u + "gift" + v;
    assert text[|u| + 1..|u| + 3] == "if";
    IfAlwaysColoured(text, |u| + 1);
  }

  /** No proper suffix of `else if` is also a prefix of it. */
  lemma ElseIfUnbordered()
    ensures Unbordered("else if")
  {
    var w := "else if";
    forall d | 0 < d < |w|
      ensures w[d..] != w[..|w| - d]
    {
      if d == 3 {
        assert w[d..][1] != w[..|w| - d][1];
      } else {
        assert w[d..][0] != w[..|w| - d][0];
      }
    }
  }

  /** `else if` is coloured wherever it occurs. */
  lemma ElseIfAlwaysColoured(text: string, p: nat)
    requires OccursAt(text, "else if", p)
    ensures Span(p, 7, Purple) in Highlight(text, Keywords)
  {
    KeywordsNonEmpty();
    ElseIfUnbordered();
    UnborderedAllReported(text, "else if", p);
    SpansAtContains(Occurrences(text, "else if", 0), 7, Purple, Span(p, 7, Purple));
    assert Keywords[3] == Entry("else if", Purple);
    HighlightContains(text, Keywords, Span(p, 7, Purple));
  }

  /** In `else if`, the `if` is coloured on its own as well as the whole `else if`. */
  lemma IfInsideElseIf(u: string, v: string)
    ensures Span(|u| + 5, 2, Purple) in Highlight(u + "else if" + v, Keywords)
    ensures Span(|u|, 7, Purple) in Highlight(u + "else if" + v, Keywords)
  {
    var text := u + "else if" + v;
    assert text[|u| + 5..|u| + 7] == "if";
    assert text[|u|..|u| + 7] == "else if";
    IfAlwaysColoured(text, |u| + 5);
    ElseIfAlwaysColoured(text, |u|);
  }
}
