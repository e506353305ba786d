/** What the rewriting of imports does to the text of one import, character by character. */
module ImportSpellings {
  import opened Options
  import opened Text
  import opened Characters
  import opened ImportRewriter
  import opened ImportTexts
  import IvCopies

  predicate IsTarget(target: string) {
    target != "" && '"' !in target
  }

  function Quote(target: string): string {
    "\"" + (target + "\"")
  }

  lemma QuotedIsMatched(gap: string, target: string, rest: string)
    requires WhiteSpace(gap) && gap != "" && IsTarget(target)
    ensures MatchQuoted("import" + (gap + (Quote(target) + rest))) == Some(Match(target, rest))
  {
    var quoted := Quote(target) + rest;
    var s := "import" + (gap + quoted);
    assert s[6..] == gap + quoted && s[6] == gap[0] && quoted[0] == '"';
    StartTrimmed(gap, quoted);
    assert quoted[1..] == target + ("\"" + rest);
    UntilQuoteOf(target, rest);
    assert quoted[1 + |target|..] == "\"" + rest;
    assert ("\"" + rest)[1..] == rest;
  }

  lemma StatementIsMatched(gap: string, target: string, gap': string, rest: string)
    requires WhiteSpace(gap) && gap != "" && IsTarget(target) && WhiteSpace(gap')
    ensures MatchStatement("import" + (gap + (Quote(target) + (gap' + (";" + rest))))) == Some(Match(target, rest))
  {
    QuotedIsMatched(gap, target, gap' + (";" + rest));
    var after := ";" + rest;
    assert after[0] == ';' && after[1..] == rest;
    StartTrimmed(gap', after);
  }

  // ----- Redirecting by file name -----

  predicate IsDir(dir: string) {
    dir == "" || dir[|dir| - 1] == '/'
  }

  lemma FileIsRenamed(oldName: string, newName: string, dir: string, file: string)
    requires IsDir(dir) && '/' !in file
    ensures RenameFile(oldName, newName)(dir + file) == if file == oldName then Some(dir + newName) else None
  {
    SplitAtFile(dir, file);
  }

  lemma Rebracketed(a: string, b: string, c: string, d: string)
    ensures a + b + c + d == a + (b + (c + d))
  {
  }

  lemma ImportIsSubstituted(redirect: Redirection, gap: string, target: string, rest: string)
    requires WhiteSpace(gap) && gap != "" && IsTarget(target)
    ensures Substitute(Quoted(), "", redirect, ImportOf(gap, target) + rest)
         == (match redirect(target) case Some(renamed) => Replacement(renamed, "") case None => ImportOf(gap, target))
          + Substitute(Quoted(), "", redirect, rest)
  {
    Rebracketed("import", gap, Quote(target), rest);
    QuotedIsMatched(gap, target, rest);
    MatchedStep(Quoted(), "", redirect, ImportOf(gap, target), rest, target);
  }

  function ImportOf(gap: string, target: string): string {
    "import" + gap + Quote(target)
  }

  lemma ReplacementIs(target: string, end: string)
    ensures Replacement(target, end) == "import " + Quote(target) + end
  {
  }

  /** An import of the old name is redirected, keeping its directory; any other one stays as it is. */
  lemma ImportIsRenamed(oldName: string, newName: string, gap: string, dir: string, file: string, rest: string)
    requires WhiteSpace(gap) && gap != "" && IsDir(dir) && '/' !in file && IsTarget(dir + file)
    ensures Substitute(Quoted(), "", RenameFile(oldName, newName), ImportOf(gap, dir + file) + rest)
         == (if file == oldName then "import " + Quote(dir + newName) else ImportOf(gap, dir + file))
          + Substitute(Quoted(), "", RenameFile(oldName, newName), rest)
  {
    var redirect := RenameFile(oldName, newName);
    FileIsRenamed(oldName, newName, dir, file);
    ImportIsSubstituted(redirect, gap, dir + file, rest);
    ReplacementIs(dir + newName, "");
    assert "import " + Quote(dir + newName) + "" == "import " + Quote(dir + newName);
  }

  // ----- The IV copies -----

  lemma FileIsPrefixed(prefix: string, chosen: string -> bool, dir: string, file: string)
    requires IsDir(dir) && '/' !in file
    ensures PrefixChosen(prefix, chosen)(dir + file) == if chosen(dir + file) then Some(dir + (prefix + file)) else None
  {
    SplitAtFile(dir, file);
  }

  function StatementOf(gap: string, target: string, gap': string): string {
    ImportOf(gap, target) + (gap' + ";")
  }

  lemma StatementText(gap: string, target: string, gap': string, rest: string)
    ensures StatementOf(gap, target, gap') + rest == "import" + (gap + (Quote(target) + (gap' + (";" + rest))))
  {
    Rebracketed("import" + gap, Quote(target), gap' + ";", rest);
    Rebracketed("import", gap, Quote(target), gap' + ";" + rest);
    Associative(gap', ";", rest);
  }

  lemma StatementIsSubstituted(redirect: Redirection, gap: string, target: string, gap': string, rest: string)
    requires WhiteSpace(gap) && gap != "" && IsTarget(target) && WhiteSpace(gap')
    ensures Substitute(Statement(), ";", redirect, StatementOf(gap, target, gap') + rest)
         == (match redirect(target) case Some(renamed) => Replacement(renamed, ";") case None => StatementOf(gap, target, gap'))
          + Substitute(Statement(), ";", redirect, rest)
  {
    StatementText(gap, target, gap', rest);
    StatementIsMatched(gap, target, gap', rest);
    MatchedStep(Statement(), ";", redirect, StatementOf(gap, target, gap'), rest, target);
  }

  /** A statement that imports a copied spec imports the file whose name has `iv_` before it. */
  lemma ImportIsPrefixed(chosen: string -> bool, gap: string, dir: string, file: string, gap': string, rest: string)
    requires WhiteSpace(gap) && gap != "" && IsDir(dir) && '/' !in file && IsTarget(dir + file) && WhiteSpace(gap')
    ensures Substitute(Statement(), ";", PrefixChosen(IvCopies.IV_PREFIX, chosen), StatementOf(gap, dir + file, gap') + rest)
         == (if chosen(dir + file) then "import " + Quote(dir + ("iv_" + file)) + ";" else StatementOf(gap, dir + file, gap'))
          + Substitute(Statement(), ";", PrefixChosen(IvCopies.IV_PREFIX, chosen), rest)
  {
    var redirect := PrefixChosen(IvCopies.IV_PREFIX, chosen);
    FileIsPrefixed(IvCopies.IV_PREFIX, chosen, dir, file);
    StatementIsSubstituted(redirect, gap, dir + file, gap', rest);
    ReplacementIs(dir + ("iv_" + file), ";");
  }
}
