/** Which imports the scanner finds, character by character. */
module ImportCharacters {
  import opened Characters
  import opened ImportScanner

  predicate Gap(s: string) {
    forall i :: 0 <= i < |s| ==> s[i] == ' ' || s[i] == '\t' || s[i] == '\r' || s[i] == '\n'
  }

  predicate NoQuoteOrBackslash(s: string) {
    forall i :: 0 <= i < |s| ==> s[i] != '"' && s[i] != '\\'
  }

  lemma {:induction false} GapIsSkipped(gap: string, rest: string)
    requires Gap(gap)
    ensures SkipSpace(gap + rest) == SkipSpace(rest)
  {
    assert AllSpace(gap);
    SkipPrintedSpace(gap, rest);
  }

  lemma NothingToSkip(rest: string)
    requires rest == "" || !Gap([rest[0]])
    ensures SkipSpace(rest) == rest
  {
    assert rest != "" ==> [rest[0]][0] == rest[0];
  }

  lemma {:induction false} PlainTargetIsRead(target: string, rest: string)
    requires NoQuoteOrBackslash(target)
    ensures ReadTarget(target + ("\"" + rest)) == (target, rest)
    decreases |target|
  {
    var s := target + ("\"" + rest);
    if target == "" {
      assert s == "\"" + rest && s[1..] == rest;
    } else {
      PlainTargetIsRead(target[1..], rest);
      assert s[0] == target[0] && s[1..] == target[1..] + ("\"" + rest);
      assert [target[0]] + target[1..] == target;
    }
  }

  /** An import with any of the four space characters, or none, before its quoted target is found. */
  lemma ImportIsFound(gap: string, target: string, rest: string)
    requires Gap(gap) && NoQuoteOrBackslash(target)
    ensures Scan(false, "import" + gap + ("\"" + (target + ("\"" + rest)))) == [target] + Scan(false, rest)
  {
    var quoted := "\"" + (target + ("\"" + rest));
    assert quoted[1..] == target + ("\"" + rest);
    assert AllSpace(gap);
    PrintedImport(gap, quoted);
    PlainTargetIsRead(target, rest);
    ScanAtImport("import" + gap + quoted);
  }

  lemma KeywordIsPassed(afterWord: bool, t: string)
    requires !AtImport(afterWord, "import" + t)
    ensures Scan(afterWord, "import" + t) == Scan(true, t)
  {
    var s := "import" + t;
    assert s[0] == "import"[0] && s[1..] == "mport" + t;
    ScanWordTail("mport", t);
  }

  /** With another character before the quote, or at the end, there is no import. */
  lemma OtherCharacterIsNoImport(gap: string, tail: string)
    requires Gap(gap) && (tail == "" || (!Gap([tail[0]]) && tail[0] != '"'))
    ensures Scan(false, "import" + (gap + tail)) == Scan(true, gap + tail)
  {
    GapIsSkipped(gap, tail);
    NothingToSkip(tail);
    assert ("import" + (gap + tail))[6..] == gap + tail;
    KeywordIsPassed(false, gap + tail);
  }

  /** Behind a letter, digit or underscore the keyword is part of an identifier. */
  lemma IdentifierIsNoImport(c: char, t: string)
    requires IdentifierChar(c) && c != 'i'
    ensures Scan(false, [c] + ("import" + t)) == Scan(true, t)
  {
    var s := [c] + ("import" + t);
    assert s[0] == c && s[1..] == "import" + t;
    assert "import"[0] == 'i';
    KeywordIsPassed(true, t);
  }

  /** Behind any other character that opens nothing it is a keyword again. */
  lemma OtherCharacterIsPassed(afterWord: bool, c: char, t: string)
    requires !IdentifierChar(c) && c != '"' && c != '/'
    ensures Scan(afterWord, [c] + t) == Scan(false, t)
  {
    var s := [c] + t;
    assert s[0] == c && s[1..] == t;
    assert "import"[0] == 'i' && IdentifierChar('i');
  }
}
