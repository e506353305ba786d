/** Classes of characters written out, and what trimming does with white space. */
module Characters {
  import opened Text

  predicate LetterOrDigit(c: char) {
    '0' <= c <= '9' || 'A' <= c <= 'Z' || 'a' <= c <= 'z'
  }

  predicate IdentifierChar(c: char) {
    LetterOrDigit(c) || c == '_'
  }

  /** Blank, tab, line break, vertical tab, form feed, carriage return, and the four separators. */
  predicate White(c: char) {
    c == ' ' || c == '\t' || c == '\n' || c == '\r' || c == 11 as char || c == 12 as char || 28 <= c as int <= 31
  }

  predicate WhiteSpace(s: string) {
    forall i :: 0 <= i < |s| ==> White(s[i])
  }

  /** Starts with a character that is no white space. */
  predicate StartsBlack(s: string) {
    s != "" && !White(s[0])
  }

  predicate EndsBlack(s: string) {
    s != "" && !White(s[|s| - 1])
  }

  lemma {:induction false} StartTrimmed(gap: string, rest: string)
    requires WhiteSpace(gap) && (rest == "" || StartsBlack(rest))
    ensures TrimmedStart(gap + rest) == rest
  {
    if gap == "" {
      assert gap + rest == rest;
    } else {
      assert (gap + rest)[1..] == gap[1..] + rest;
      StartTrimmed(gap[1..], rest);
    }
  }

  lemma {:induction false} EndTrimmed(front: string, gap: string)
    requires WhiteSpace(gap) && (front == "" || EndsBlack(front))
    ensures TrimmedEnd(front + gap) == front
    decreases |gap|
  {
    var s := front + gap;
    if gap == "" {
      assert s == front;
    } else {
      var last := |gap| - 1;
      assert s[..|s| - 1] == front + gap[..last] && s[|s| - 1] == gap[last];
      EndTrimmed(front, gap[..last]);
    }
  }

  /** Every text is white space with trimmed text behind it. */
  lemma {:induction false} StartSplits(s: string) returns (gap: string)
    ensures WhiteSpace(gap) && s == gap + TrimmedStart(s) && (TrimmedStart(s) == "" || StartsBlack(TrimmedStart(s)))
  {
    gap := "";
    if s != "" && IsSpace(s[0]) {
      gap := StartSplits(s[1..]);
      assert s == [s[0]] + s[1..] == [s[0]] + gap + TrimmedStart(s);
      gap := [s[0]] + gap;
    }
  }

  lemma {:induction false} EndSplits(s: string) returns (gap: string)
    ensures WhiteSpace(gap) && s == TrimmedEnd(s) + gap && (TrimmedEnd(s) == "" || EndsBlack(TrimmedEnd(s)))
  {
    gap := "";
    if s != "" && IsSpace(s[|s| - 1]) {
      var last := |s| - 1;
      gap := EndSplits(s[..last]);
      Associative(TrimmedEnd(s), gap, [s[last]]);
      assert s == s[..last] + [s[last]];
      gap := gap + [s[last]];
    }
  }

  /** The text goes on as `word` behind white space. */
  predicate Begins(s: string, word: string) {
    exists n :: 0 <= n <= |s| && BeginsAt(s, word, n)
  }

  predicate BeginsAt(s: string, word: string, n: nat) {
    n <= |s| && WhiteSpace(s[..n]) && word <= s[n..]
  }

  /** The text has `word` before white space at its end. */
  predicate Finishes(s: string, word: string) {
    exists n :: 0 <= n <= |s| && FinishesAt(s, word, n)
  }

  predicate FinishesAt(s: string, word: string, n: nat) {
    n + |word| <= |s| && s[n..n + |word|] == word && WhiteSpace(s[n + |word|..])
  }

  lemma BeginsIsTrimmed(s: string, word: string)
    requires StartsBlack(word)
    ensures Begins(s, word) <==> word <= TrimmedStart(s)
  {
    if n: nat :| n <= |s| && BeginsAt(s, word, n) {
      assert s == s[..n] + s[n..] && s[n..][0] == word[0];
      StartTrimmed(s[..n], s[n..]);
    }
    if word <= TrimmedStart(s) {
      var gap := StartSplits(s);
      assert s[..|gap|] == gap && s[|gap|..] == TrimmedStart(s);
      assert BeginsAt(s, word, |gap|);
    }
  }

  lemma WordBeforeGap(front: string, word: string, gap: string)
    requires EndsBlack(word) && WhiteSpace(gap)
    ensures EndsWith(TrimmedEnd(front + word + gap), word) && Finishes(front + word + gap, word)
  {
    var t, s := front + word, front + word + gap;
    assert t[|t| - 1] == word[|word| - 1];
    EndTrimmed(t, gap);
    assert t[|t| - |word|..] == word;
    assert s[|front|..|front| + |word|] == word && s[|front| + |word|..] == gap;
    assert FinishesAt(s, word, |front|);
  }

  lemma SplitAt(s: string, word: string, n: nat)
    requires FinishesAt(s, word, n)
    ensures s == s[..n] + word + s[n + |word|..]
  {
  }

  lemma FinishesIsTrimmed(s: string, word: string)
    requires EndsBlack(word)
    ensures Finishes(s, word) <==> EndsWith(TrimmedEnd(s), word)
  {
    if n: nat :| n <= |s| && FinishesAt(s, word, n) {
      SplitAt(s, word, n);
      WordBeforeGap(s[..n], word, s[n + |word|..]);
    }
    if EndsWith(TrimmedEnd(s), word) {
      var gap := EndSplits(s);
      var front := TrimmedEnd(s)[..|TrimmedEnd(s)| - |word|];
      assert TrimmedEnd(s) == front + word;
      WordBeforeGap(front, word, gap);
    }
  }
}
