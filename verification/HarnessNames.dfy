/** What the names made from types look like, in terms of the characters they are made of. */
module HarnessNames {
  import opened Text
  import opened Characters
  import opened HarnessModel

  predicate Alphanumeric(s: string) {
    s != "" && forall i :: 0 <= i < |s| ==> LetterOrDigit(s[i])
  }

  predicate NoLetterOrDigit(s: string) {
    forall i :: 0 <= i < |s| ==> !LetterOrDigit(s[i])
  }

  /** Words with gaps between them and around them. */
  function Spread(words: seq<string>, gaps: seq<string>): string
    requires |gaps| == |words| + 1
  {
    if words == [] then gaps[0] else gaps[0] + (words[0] + Spread(words[1..], gaps[1..]))
  }

  predicate WordsApart(words: seq<string>, gaps: seq<string>) {
    && |gaps| == |words| + 1
    && (forall i :: 0 <= i < |words| ==> Alphanumeric(words[i]))
    && (forall i :: 0 <= i < |gaps| ==> NoLetterOrDigit(gaps[i]))
    && (forall i :: 0 < i < |words| ==> gaps[i] != "")
  }

  // ----- Sanitizing -----

  lemma {:induction false} CollapsedWord(word: string, rest: string, inRun: bool)
    requires Alphanumeric(word)
    ensures Collapse(word + rest, inRun) == word + Collapse(rest, false)
    decreases |word|
  {
    assert (word + rest)[1..] == word[1..] + rest;
    if |word| > 1 {
      CollapsedWord(word[1..], rest, false);
      Associative([word[0]], word[1..], Collapse(rest, false));
      assert word == [word[0]] + word[1..];
    } else {
      assert word[1..] + rest == rest && word == [word[0]];
    }
  }

  lemma {:induction false} CollapsedRun(gap: string, rest: string)
    requires NoLetterOrDigit(gap)
    ensures Collapse(gap + rest, true) == Collapse(rest, true)
    decreases |gap|
  {
    if gap == "" {
      assert gap + rest == rest;
    } else {
      assert (gap + rest)[1..] == gap[1..] + rest;
      CollapsedRun(gap[1..], rest);
    }
  }

  lemma CollapsedGap(gap: string, rest: string)
    requires NoLetterOrDigit(gap)
    ensures Collapse(gap + rest, false) == if gap == "" then Collapse(rest, false) else "_" + Collapse(rest, true)
  {
    if gap == "" {
      assert gap + rest == rest;
    } else {
      assert (gap + rest)[1..] == gap[1..] + rest;
      CollapsedRun(gap[1..], rest);
    }
  }

  /** How the words look after collapsing; a gap that is not empty gives one underscore. */
  function Underscored(words: seq<string>, gaps: seq<string>): string
    requires |gaps| == |words| + 1
  {
    if words == [] then Bar(gaps[0]) else Bar(gaps[0]) + (words[0] + Underscored(words[1..], gaps[1..]))
  }

  function Bar(gap: string): string {
    if gap == "" then "" else "_"
  }

  lemma {:induction false} CollapsedSpread(words: seq<string>, gaps: seq<string>)
    requires WordsApart(words, gaps)
    ensures Collapse(Spread(words, gaps), false) == Underscored(words, gaps)
    decreases |words|
  {
    if words == [] {
      assert gaps[0] + "" == gaps[0];
      CollapsedGap(gaps[0], "");
    } else {
      var rest := Spread(words[1..], gaps[1..]);
      CollapsedSpread(words[1..], gaps[1..]);
      CollapsedGap(gaps[0], words[0] + rest);
      CollapsedWord(words[0], rest, false);
      CollapsedWord(words[0], rest, true);
    }
  }

  lemma {:induction false} JoinedEnds(words: seq<string>)
    requires words != [] && forall i :: 0 <= i < |words| ==> Alphanumeric(words[i])
    ensures var s := Join("_", words);
      s != "" && s[0] != '_' && s[|s| - 1] != '_'
  {
    if |words| > 1 {
      JoinedEnds(words[1..]);
    }
  }

  lemma {:induction false} InnerIsJoined(words: seq<string>, gaps: seq<string>)
    requires WordsApart(words, gaps) && words != []
    ensures Underscored(words, gaps) == Bar(gaps[0]) + (Join("_", words) + Bar(gaps[|words|]))
    decreases |words|
  {
    if |words| > 1 {
      InnerIsJoined(words[1..], gaps[1..]);
      var last := Bar(gaps[|words|]);
      assert Bar(gaps[1]) == "_";
      assert words[0] + ("_" + (Join("_", words[1..]) + last)) == Join("_", words) + last;
    }
  }

  lemma StrippedEnds(front: string, s: string, back: string)
    requires s != "" && s[0] != '_' && s[|s| - 1] != '_'
    requires (front == "" || front == "_") && (back == "" || back == "_")
    ensures StripRight(StripLeft(front + (s + back))) == s
  {
    assert front == "" ==> front + (s + back) == s + back;
    assert (front + (s + back))[|front|..] == s + back;
    assert StripLeft(s + back) == s + back;
    assert StripLeft(front + (s + back)) == s + back;
    assert back == "" ==> s + back == s;
    assert (s + back)[..|s|] == s;
    assert StripRight(s) == s;
  }

  /** Sanitizing joins the words by single underscores and drops everything else. */
  lemma SanitizedIsJoined(words: seq<string>, gaps: seq<string>)
    requires WordsApart(words, gaps)
    ensures SanitizeIdentifier(Spread(words, gaps)) == Join("_", words)
  {
    CollapsedSpread(words, gaps);
    if words == [] {
      assert "_"[1..] == "";
    } else {
      InnerIsJoined(words, gaps);
      JoinedEnds(words);
      StrippedEnds(Bar(gaps[0]), Join("_", words), Bar(gaps[|words|]));
    }
  }

  // ----- Types -----

  lemma AlphanumericStays(t: string)
    requires Alphanumeric(t)
    ensures SanitizeIdentifier(t) == t
  {
    SanitizedIsJoined([t], ["", ""]);
    assert ["", ""][1..] == [""] && [t][1..] == [];
    assert "" + (t + "") == t;
  }

  /** The library's own types lose its name. */
  lemma OwnTypeName(libraryName: string, t: string)
    requires Alphanumeric(t)
    ensures ShortTypeName(libraryName + "." + t, libraryName) == t
  {
    assert (libraryName + "." + t)[|libraryName + "."|..] == t;
    AlphanumericStays(t);
  }

  lemma QualifiedHasDot(libraryName: string, t: string)
    requires libraryName + "." <= t
    ensures '.' in t
  {
    assert t[|libraryName|] == (libraryName + ".")[|libraryName|];
  }

  lemma UnqualifiedTypeName(libraryName: string, t: string)
    requires '.' !in t
    ensures ShortTypeName(t, libraryName) == SanitizeIdentifier(t)
  {
    if libraryName + "." <= t {
      QualifiedHasDot(libraryName, t);
    }
  }

  lemma PlainTypeName(libraryName: string, t: string)
    requires Alphanumeric(t)
    ensures ShortTypeName(t, libraryName) == t
  {
    UnqualifiedTypeName(libraryName, t);
    AlphanumericStays(t);
  }

  lemma OneWord(a: string, last: string)
    requires Alphanumeric(a) && NoLetterOrDigit(last)
    ensures WordsApart([a], ["", last]) && Spread([a], ["", last]) == a + last && Join("_", [a]) == a
  {
    assert ["", last][1..] == [last] && [a][1..] == [];
    assert "" + (a + last) == a + last;
  }

  lemma OneMoreWord(a: string, gap: string, words: seq<string>, gaps: seq<string>)
    requires words != [] && WordsApart(words, [""] + gaps) && Alphanumeric(a) && NoLetterOrDigit(gap) && gap != ""
    ensures WordsApart([a] + words, ["", gap] + gaps)
    ensures Spread([a] + words, ["", gap] + gaps) == a + (gap + Spread(words, [""] + gaps))
    ensures Join("_", [a] + words) == a + "_" + Join("_", words)
  {
    var ws, gs, inner := [a] + words, ["", gap] + gaps, [""] + gaps;
    assert ws[1..] == words && gs[1..] == [gap] + gaps;
    forall i | 0 <= i < |gs|
      ensures NoLetterOrDigit(gs[i]) && (1 < i < |ws| ==> gs[i] != "")
    {
      if i > 1 {
        assert gs[i] == inner[i - 1];
      }
    }
    assert ([gap] + gaps)[1..] == gaps && inner[1..] == gaps;
    assert "" + (words[0] + Spread(words[1..], gaps)) == words[0] + Spread(words[1..], gaps);
    assert Spread(ws, gs) == "" + (a + (gap + Spread(words, inner)));
  }

  lemma TwoWords(a: string, gap: string, b: string, last: string)
    requires Alphanumeric(a) && Alphanumeric(b) && NoLetterOrDigit(gap) && gap != "" && NoLetterOrDigit(last)
    ensures SanitizeIdentifier(a + (gap + (b + last))) == a + "_" + b
  {
    OneWord(b, last);
    assert [""] + [last] == ["", last];
    OneMoreWord(a, gap, [b], [last]);
    SanitizedIsJoined([a] + [b], ["", gap] + [last]);
  }

  lemma ThreeWords(a: string, gap: string, b: string, gap': string, c: string, last: string)
    requires Alphanumeric(a) && Alphanumeric(b) && Alphanumeric(c)
    requires NoLetterOrDigit(gap) && gap != "" && NoLetterOrDigit(gap') && gap' != "" && NoLetterOrDigit(last)
    ensures SanitizeIdentifier(a + (gap + (b + (gap' + (c + last))))) == a + "_" + (b + "_" + c)
  {
    OneWord(c, last);
    assert [""] + [last] == ["", last];
    OneMoreWord(b, gap', [c], [last]);
    assert [""] + ([gap'] + [last]) == ["", gap'] + [last];
    OneMoreWord(a, gap, [b] + [c], [gap'] + [last]);
    SanitizedIsJoined([a] + ([b] + [c]), ["", gap] + ([gap'] + [last]));
  }

  /** A type from elsewhere keeps its qualifier. */
  lemma ForeignTypeName(libraryName: string, other: string, t: string)
    requires Alphanumeric(t) && Alphanumeric(other) && Alphanumeric(libraryName) && other != libraryName
    ensures ShortTypeName(other + "." + t, libraryName) == other + "_" + t
  {
    var s := other + "." + t;
    if libraryName + "." <= s {
      SameQualifier(libraryName, other, t);
    }
    TwoWords(other, ".", t, "");
    assert other + ("." + (t + "")) == s;
  }

  lemma SameQualifier(libraryName: string, other: string, t: string)
    requires Alphanumeric(other) && Alphanumeric(libraryName) && libraryName + "." <= other + "." + t
    ensures other == libraryName
  {
    var s, n := other + "." + t, |libraryName|;
    assert s[n] == (libraryName + ".")[n] && s[|other|] == '.';
    assert forall i :: 0 <= i < n ==> s[i] == (libraryName + ".")[i] == libraryName[i] && LetterOrDigit(libraryName[i]);
    assert forall i :: 0 <= i < |other| ==> s[i] == other[i] && LetterOrDigit(other[i]);
    assert n == |other|;
  }

  /** A mapping is named by its key and value types. */
  lemma MappingTypeName(libraryName: string, key: string, value: string)
    requires Alphanumeric(key) && Alphanumeric(value)
    ensures ShortTypeName("mapping" + ("(" + (key + (" => " + (value + ")")))), libraryName) == "mapping" + "_" + (key + "_" + value)
  {
    UnqualifiedTypeName(libraryName, "mapping" + ("(" + (key + (" => " + (value + ")")))));
    ThreeWords("mapping", "(", key, " => ", value, ")");
  }
}
