/** What the line patterns of the rule parser match, character by character. */
module RuleLines {
  import opened Options
  import opened Text
  import opened Characters
  import opened RuleRanges
  import RuleDisabling

  // ----- Rule declarations -----

  predicate IsIdentifier(s: string) {
    s != "" && forall i :: 0 <= i < |s| ==> IdentifierChar(s[i])
  }

  /** White space, the keyword, white space, the name, and something that does not go on with it. */
  predicate IsDeclaration(line: string, gap: string, gap': string, name: string, rest: string) {
    && line == gap + ("rule" + (gap' + (name + rest)))
    && WhiteSpace(gap) && WhiteSpace(gap') && gap' != "" && IsIdentifier(name)
    && (rest != "" ==> !IdentifierChar(rest[0]))
  }

  ghost predicate Declares(line: string, name: string) {
    exists gap, gap', rest :: IsDeclaration(line, gap, gap', name, rest)
  }

  lemma {:induction false} WordIsPrefix(word: string, rest: string)
    requires (forall i :: 0 <= i < |word| ==> IdentifierChar(word[i])) && (rest != "" ==> !IdentifierChar(rest[0]))
    ensures WordPrefix(word + rest) == word
  {
    if word == "" {
      assert word + rest == rest;
    } else {
      assert (word + rest)[1..] == word[1..] + rest;
      WordIsPrefix(word[1..], rest);
      assert [word[0]] + word[1..] == word;
    }
  }

  lemma {:induction false} PrefixIsWord(s: string) returns (rest: string)
    ensures s == WordPrefix(s) + rest && (forall i :: 0 <= i < |WordPrefix(s)| ==> IdentifierChar(WordPrefix(s)[i]))
    ensures rest != "" ==> !IdentifierChar(rest[0])
  {
    if s != "" && IsWordChar(s[0]) {
      rest := PrefixIsWord(s[1..]);
      assert s == [s[0]] + s[1..] == [s[0]] + WordPrefix(s[1..]) + rest;
    } else {
      rest := s;
      assert s == "" + s;
    }
  }

  lemma DeclarationIsNamed(line: string, gap: string, gap': string, name: string, rest: string)
    requires IsDeclaration(line, gap, gap', name, rest)
    ensures RuleName(line) == Some(name)
  {
    var s := "rule" + (gap' + (name + rest));
    assert s[0] == 'r' && s[..4] == "rule" && s[4..] == gap' + (name + rest) && s[4] == gap'[0];
    StartTrimmed(gap, s);
    StartTrimmed(gap', name + rest);
    WordIsPrefix(name, rest);
  }

  lemma NamedIsDeclaration(line: string, name: string) returns (gap: string, gap': string, rest: string)
    requires RuleName(line) == Some(name)
    ensures IsDeclaration(line, gap, gap', name, rest)
  {
    gap := StartSplits(line);
    gap', rest := NameSplits(TrimmedStart(line)[4..]);
    assert TrimmedStart(line) == "rule" + TrimmedStart(line)[4..];
  }

  lemma NameSplits(s: string) returns (gap: string, rest: string)
    requires s != "" && IsSpace(s[0])
    ensures s == gap + (WordPrefix(TrimmedStart(s)) + rest) && WhiteSpace(gap) && gap != ""
    ensures (rest != "" ==> !IdentifierChar(rest[0])) && (WordPrefix(TrimmedStart(s)) != "" ==> IsIdentifier(WordPrefix(TrimmedStart(s))))
  {
    gap := StartSplits(s);
    rest := PrefixIsWord(TrimmedStart(s));
    assert gap == "" ==> s == TrimmedStart(s);
  }

  /** A line has the name of a rule if and only if it declares the rule. */
  lemma RuleNameIff(line: string, name: string)
    ensures RuleName(line) == Some(name) <==> Declares(line, name)
  {
    if RuleName(line) == Some(name) {
      var gap, gap', rest := NamedIsDeclaration(line, name);
    }
    if gap, gap', rest :| IsDeclaration(line, gap, gap', name, rest) {
      DeclarationIsNamed(line, gap, gap', name, rest);
    }
  }

  // ----- Other patterns -----

  lemma BlankIff(line: string)
    ensures IsBlank(line) <==> WhiteSpace(line)
  {
    var gap := StartSplits(line);
    if WhiteSpace(line) {
      StartTrimmed(line, "");
      assert line + "" == line;
    }
    if IsBlank(line) {
      assert line == gap + "" == gap;
    }
  }

  /** A line opens a block if and only if its first character that is no white space is a brace. */
  lemma OpensIff(line: string)
    ensures StartsWith(line, '{') <==> Begins(line, "{")
  {
    BeginsIsTrimmed(line, "{");
  }

  lemma CommentIff(line: string)
    ensures RuleDisabling.IsComment(line) <==> Begins(line, "//")
  {
    BeginsIsTrimmed(line, "//");
  }

  /** A line that is no comment gets the text of the tool in front. */
  lemma CommentedOutIs(line: string)
    ensures RuleDisabling.CommentOut(line)
         == if Begins(line, "//") then line else "// AUTO-DISABLED (missing implementations): " + line
  {
    CommentIff(line);
  }
}
