/**
  What a keyword rule `\bw\b -> x` leaves behind: when the keyword is made of
  word characters and the replacement of none, no whole-word occurrence of
  the keyword survives the substitution. This is why the `divide` rule, which
  runs first, leaves nothing for the `integer divide` rule to rewrite.
 */
module KeywordFacts {
  import opened Text
  import opened Rewrite

  /**
    `\bw\b` at index `p` of `u`, where `u` is the tail of a longer text and
    `wordBefore` says whether the character just before `u` is a word character.
   */
  predicate WholeWordIn(u: string, w: string, p: nat, wordBefore: bool) {
    && OccursAt(u, w, p)
    && (if p == 0 then !wordBefore else !IsWordChar(u[p - 1]))
    && (p + |w| == |u| || !IsWordChar(u[p + |w|]))
  }

  /** For a keyword of word characters, `\bw\b` is `WholeWordIn` with nothing before the text. */
  lemma WholeWordAtIn(u: string, w: string, p: nat)
    requires |w| > 0 && AllWordChars(w)
    ensures WholeWordAt(u, w, p) <==> WholeWordIn(u, w, p, false)
  {
    if OccursAt(u, w, p) {
      OccursAtChars(u, w, p);
      assert IsWordChar(u[p]) && IsWordChar(u[p + |w| - 1]);
    }
  }

  /** Whole-word occurrences past a prefix `a` are those of the tail, with the last character of `a` before it. */
  lemma WholeWordInShift(a: string, b: string, w: string, p: nat, wordBefore: bool)
    ensures WholeWordIn(a + b, w, |a| + p, wordBefore)
        <==> WholeWordIn(b, w, p, if |a| > 0 then IsWordChar(a[|a| - 1]) else wordBefore)
  {
    var u := a + b;
    var q := |a| + p;
    if q + |w| <= |u| {
      assert u[q..q + |w|] == b[p..p + |w|];
    }
    if p > 0 && p <= |b| {
      assert u[q - 1] == b[p - 1];
    }
    if p == 0 && |a| > 0 {
      assert u[q - 1] == a[|a| - 1];
    }
    if q + |w| < |u| {
      assert u[q + |w|] == b[p + |w|];
    }
  }

  /** Inside a run of word characters longer or other than `w`, `\bw\b` matches nowhere. */
  lemma NoKeywordInRun(s: string, w: string, j: nat, k: nat)
    requires |w| > 0 && AllWordChars(w)
    requires j < k <= |s| && k == RunEnd(s, j, IsWordChar) && s[j..k] != w
    ensures forall i :: j <= i < k ==> !WholeWordAt(s, w, i)
  {
    RunEndAll(s, j, IsWordChar);
    forall i | j <= i < k
      ensures !WholeWordAt(s, w, i)
    {
      if i > j {
        assert IsWordChar(s[i - 1]) && IsWordChar(s[i]);
      } else if j + |w| < k {
        assert IsWordChar(s[j + |w| - 1]) && IsWordChar(s[j + |w|]);
      } else if j + |w| > k && k < |s| {
        OccursAtIndex(s, w, j, k - j);
        assert !IsWordChar(s[k]) && IsWordChar(w[k - j]);
      }
    }
  }

  /** No whole-word `w` in `u`, the text that follows a character that is a word character exactly when `wordBefore`. */
  ghost predicate NoKeywordIn(u: string, w: string, wordBefore: bool) {
    forall p: nat :: !WholeWordIn(u, w, p, wordBefore)
  }

  /** Text of no word characters in front of keyword-free text adds no occurrence of a keyword of word characters. */
  lemma NoKeywordAfterNonWords(a: string, b: string, w: Word, wordBefore: bool)
    requires AllWordChars(w) && |a| > 0 && NoWordChars(a)
    requires NoKeywordIn(b, w, false)
    ensures NoKeywordIn(a + b, w, wordBefore)
  {
    var u := a + b;
    forall p: nat
      ensures !WholeWordIn(u, w, p, wordBefore)
    {
      if p < |a| {
        OccursAtIndex(u, w, p, 0);
        assert u[p] == a[p];
      } else {
        WholeWordInShift(a, b, w, p - |a|, wordBefore);
      }
    }
  }

  /** A character outside `\w` is copied, and the text after it needs no word character before it. */
  lemma KeywordGoneAfterNonWord(w: Word, x: string, s: string, j: nat, wordBefore: bool)
    requires AllWordChars(w)
    requires j < |s| && !IsWordChar(s[j])
    requires NoKeywordIn(SubFrom(KeywordRule(w, x), s, j + 1), w, false)
    ensures NoKeywordIn(SubFrom(KeywordRule(w, x), s, j), w, wordBefore)
  {
    var r := KeywordRule(w, x);
    var u := SubFrom(r, s, j);
    OccursAtIndex(s, w, j, 0);
    assert !WholeWordAt(s, w, j);
    SubFromStep(r, s, j);
    NoKeywordAfterNonWords([s[j]], SubFrom(r, s, j + 1), w, wordBefore);
  }

  /** A whole-word occurrence of the keyword is replaced by `x`. */
  lemma KeywordReplaced(w: Word, x: string, s: string, j: nat, k: nat)
    requires j < |s| && WholeWordAt(s, w, j) && k == j + |w|
    ensures SubFrom(KeywordRule(w, x), s, j) == x + SubFrom(KeywordRule(w, x), s, k)
  {
    assert Expand([Lit(x)], []) == x;
  }

  /** A whole run of word characters is a whole-word occurrence of its text. */
  lemma RunIsWholeWord(s: string, w: string, j: nat, k: nat)
    requires j < k <= |s| && k == RunEnd(s, j, IsWordChar) && s[j..k] == w
    requires j == 0 || !IsWordChar(s[j - 1])
    ensures WholeWordAt(s, w, j)
  {
    RunEndAll(s, j, IsWordChar);
    assert IsWordChar(s[j]) && IsWordChar(s[k - 1]);
  }

  /** A run of word characters that is exactly `w` becomes `x`, which holds no word character. */
  lemma KeywordGoneAfterReplaced(w: Word, x: string, s: string, j: nat, k: nat, wordBefore: bool)
    requires AllWordChars(w) && |x| > 0 && NoWordChars(x)
    requires j < k <= |s| && k == RunEnd(s, j, IsWordChar) && s[j..k] == w
    requires !wordBefore && (j == 0 || !IsWordChar(s[j - 1]))
    requires NoKeywordIn(SubFrom(KeywordRule(w, x), s, k), w, false)
    ensures NoKeywordIn(SubFrom(KeywordRule(w, x), s, j), w, wordBefore)
  {
    var r := KeywordRule(w, x);
    var u := SubFrom(r, s, j);
    var rest := SubFrom(r, s, k);
    RunIsWholeWord(s, w, j, k);
    KeywordReplaced(w, x, s, j, k);
    NoKeywordAfterNonWords(x, rest, w, wordBefore);
  }

  /** A run of word characters other than `w` is copied whole. */
  lemma KeywordGoneAfterCopied(w: Word, x: string, s: string, j: nat, k: nat, wordBefore: bool)
    requires AllWordChars(w)
    requires j < k <= |s| && k == RunEnd(s, j, IsWordChar) && s[j..k] != w
    requires !wordBefore
    requires NoKeywordIn(SubFrom(KeywordRule(w, x), s, k), w, true)
    ensures NoKeywordIn(SubFrom(KeywordRule(w, x), s, j), w, wordBefore)
  {
    var r := KeywordRule(w, x);
    var rest := SubFrom(r, s, k);
    RunSlice(s, j, k, IsWordChar);
    NoKeywordInsideRun(w, x, s, j, k);
    SubFromCopies(r, s, j, k);
    if k < |s| {
      OccursAtIndex(s, w, k, 0);
      SubFromStep(r, s, k);
    }
    NoKeywordAfterOtherWord(s[j..k], rest, w);
  }

  /** Inside a run of word characters other than `w`, the keyword rule matches nowhere. */
  lemma NoKeywordInsideRun(w: Word, x: string, s: string, j: nat, k: nat)
    requires AllWordChars(w)
    requires j < k <= |s| && k == RunEnd(s, j, IsWordChar) && s[j..k] != w
    ensures forall i :: j <= i < k ==> MatchAt(KeywordRule(w, x).pattern, s, i).None?
  {
    NoKeywordInRun(s, w, j, k);
  }


  /** A word other than `w`, followed by keyword-free text that does not start with a word character, adds no occurrence of `w`. */
  lemma NoKeywordAfterOtherWord(t: string, rest: string, w: Word)
    requires AllWordChars(w) && |t| > 0 && AllWordChars(t) && t != w
    requires |rest| == 0 || !IsWordChar(rest[0])
    requires NoKeywordIn(rest, w, true)
    ensures NoKeywordIn(t + rest, w, false)
  {
    var u := t + rest;
    forall p: nat
      ensures !WholeWordIn(u, w, p, false)
    {
      if p == 0 {
        NoKeywordAtWordStart(t, rest, w);
      } else if p < |t| {
        assert u[p - 1] == t[p - 1];
      } else {
        WholeWordInShift(t, rest, w, p - |t|, false);
      }
    }
  }

  /** At the start of such a word, `w` does not fit: it is either a proper prefix of the word, the word itself, or runs past it. */
  lemma NoKeywordAtWordStart(t: string, rest: string, w: Word)
    requires AllWordChars(w) && |t| > 0 && AllWordChars(t) && t != w
    requires |rest| == 0 || !IsWordChar(rest[0])
    ensures !WholeWordIn(t + rest, w, 0, false)
  {
    var u := t + rest;
    if |w| < |t| {
      assert u[|w|] == t[|w|];
    } else if |w| == |t| {
      assert u[..|w|] == t;
    } else if |t| < |u| {
      OccursAtIndex(u, w, 0, |t|);
      assert u[|t|] == rest[0];
    }
  }

  /**
    The induction behind `KeywordRemoved`: from index `j` on, the output of
    the substitution holds no whole-word `w`, provided `j` does not split a
    word and the character before the output is a word character only when
    the character after it cannot start one.
   */
  lemma {:induction false} KeywordGoneFrom(w: Word, x: string, s: string, j: nat, wordBefore: bool)
    requires AllWordChars(w) && |x| > 0 && NoWordChars(x)
    requires j <= |s|
    requires j < |s| && IsWordChar(s[j]) ==> !wordBefore && (j == 0 || !IsWordChar(s[j - 1]))
    ensures NoKeywordIn(SubFrom(KeywordRule(w, x), s, j), w, wordBefore)
    decreases |s| - j
  {
    if j == |s| {
      assert SubFrom(KeywordRule(w, x), s, j) == [];
    } else if !IsWordChar(s[j]) {
      KeywordGoneFrom(w, x, s, j + 1, false);
      KeywordGoneAfterNonWord(w, x, s, j, wordBefore);
    } else {
      var k := RunEnd(s, j, IsWordChar);
      if s[j..k] == w {
        KeywordGoneFrom(w, x, s, k, false);
        KeywordGoneAfterReplaced(w, x, s, j, k, wordBefore);
      } else {
        KeywordGoneFrom(w, x, s, k, true);
        KeywordGoneAfterCopied(w, x, s, j, k, wordBefore);
      }
    }
  }

  /**
    A keyword rule whose keyword is made of word characters and whose
    replacement contains none leaves no whole-word occurrence of the keyword.
    In the table these are `add`, `subtract`, `multiply`, `divide`,
    `modulus`, `power` and `becomes`; keywords with a space, such as the
    comparisons and `integer divide`, are outside this statement.
   */
  lemma KeywordRemoved(w: Word, x: string, s: string)
    requires AllWordChars(w) && |x| > 0 && NoWordChars(x)
    ensures forall p: nat :: !WholeWordAt(Sub(KeywordRule(w, x), s), w, p)
  {
    KeywordGoneFrom(w, x, s, 0, false);
    forall p: nat
      ensures !WholeWordAt(Sub(KeywordRule(w, x), s), w, p)
    {
      WholeWordAtIn(Sub(KeywordRule(w, x), s), w, p);
    }
  }
}
