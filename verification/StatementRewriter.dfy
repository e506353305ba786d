/**
 * Rewriting whole import statements, semicolon included: what the second regular expression reads
 * and what it misses.
 */
module StatementRewriter {
  import opened Options
  import opened Text
  import opened ImportScanner
  import opened ImportRewriter

  predicate IsSpaceToken(t: Token) {
    t.Punct? && IsSpace(t.c)
  }

  function DropSpaces(ts: seq<Token>): (r: seq<Token>)
    ensures |r| <= |ts| && (r != [] ==> !IsSpaceToken(r[0]))
  {
    if ts != [] && IsSpaceToken(ts[0]) then DropSpaces(ts[1..]) else ts
  }

  /** The white space in front of the tokens. */
  function Gap(ts: seq<Token>): string {
    if ts != [] && IsSpaceToken(ts[0]) then [ts[0].c] + Gap(ts[1..]) else ""
  }

  /** A semicolon comes next, after white space at most. */
  predicate Ended(ts: seq<Token>) {
    var next := DropSpaces(ts);
    next != [] && next[0] == Punct(';')
  }

  function NewStatement(redirect: Redirection, ts: seq<Token>): Option<string>
    requires ts != []
  {
    if Ended(ts[1..]) then NewTarget(redirect, ts[0]) else None
  }

  /** A redirected statement loses the white space before its semicolon. */
  function Redirected(redirect: Redirection, ts: seq<Token>): seq<Token>
    decreases |ts|
  {
    if ts == [] then []
    else
      match NewStatement(redirect, ts)
      case Some(target) => [NewImport(target)] + Redirected(redirect, DropSpaces(ts[1..]))
      case None => [ts[0]] + Redirected(redirect, ts[1..])
  }

  /** Every token is a spelled import statement, or no match that it could start is complete. */
  predicate Legible(ts: seq<Token>, e: End) {
    if ts == [] then NoMatch(PrintEnd(e)) && !e.OpenImport?
    else
      && (if Spelled(ts[0]) then Ended(ts[1..]) || QuietFrom(PrintToken(ts[0]), 1) else Quiet(PrintToken(ts[0])))
      && Legible(ts[1..], e)
  }

  // ----- White space between tokens -----

  lemma {:induction false} GapPrints(ts: seq<Token>, e: End)
    ensures Print(ts, e) == Gap(ts) + Print(DropSpaces(ts), e)
    decreases |ts|
  {
    if ts != [] && IsSpaceToken(ts[0]) {
      GapPrints(ts[1..], e);
      Associative([ts[0].c], Gap(ts[1..]), Print(DropSpaces(ts[1..]), e));
    } else {
      assert "" + Print(ts, e) == Print(ts, e);
    }
  }

  lemma {:induction false} GapIsTrimmed(ts: seq<Token>, rest: string)
    ensures TrimmedStart(Gap(ts) + rest) == TrimmedStart(rest)
    decreases |ts|
  {
    if ts != [] && IsSpaceToken(ts[0]) {
      GapIsTrimmed(ts[1..], rest);
      assert (Gap(ts) + rest)[1..] == Gap(ts[1..]) + rest && (Gap(ts) + rest)[0] == ts[0].c;
    } else {
      assert Gap(ts) + rest == rest;
    }
  }

  lemma {:induction false} DroppedStays(ts: seq<Token>, e: End)
    requires WellFormed(ts, e) && Legible(ts, e)
    ensures WellFormed(DropSpaces(ts), e) && Legible(DropSpaces(ts), e)
    ensures Targets(DropSpaces(ts), e) == Targets(ts, e)
    decreases |ts|
  {
    if ts != [] && IsSpaceToken(ts[0]) {
      DroppedStays(ts[1..], e);
      assert Targets(ts, e) == [] + Targets(ts[1..], e);
    }
  }

  /** What a document starts with, if not with white space. */
  lemma FirstChar(ts: seq<Token>, e: End)
    requires WellFormed(ts, e) && (ts != [] ==> !IsSpaceToken(ts[0]))
    ensures TrimmedStart(Print(ts, e)) == Print(ts, e)
    ensures StartsWithChar(Print(ts, e), ';') <==> ts != [] && ts[0] == Punct(';')
  {
    if ts == [] {
      EndStarts(e);
    } else {
      TokenStarts(ts[0]);
      assert Print(ts, e)[0] == PrintToken(ts[0])[0];
    }
  }

  lemma EndStarts(e: End)
    ensures PrintEnd(e) != "" ==> !IsSpace(PrintEnd(e)[0]) && PrintEnd(e)[0] != ';'
  {
    match e
    case Eof =>
    case OpenStr(_, _) => assert PrintEnd(e)[0] == '"';
    case OpenLine(_) => assert PrintEnd(e)[0] == '/';
    case OpenBlock(_) => assert PrintEnd(e)[0] == '/';
    case OpenImport(_, _, _) => assert PrintEnd(e)[0] == "import"[0];
  }

  lemma TokenStarts(t: Token)
    requires TokenOk(t)
    ensures PrintToken(t) != ""
    ensures !t.Punct? ==> !IsSpace(PrintToken(t)[0]) && PrintToken(t)[0] != ';'
  {
    match t
    case Word(text) => assert IsWordChar(text[0]);
    case Punct(_) =>
    case Str(_) => assert PrintToken(t)[0] == '"';
    case LineComment(_) => assert PrintToken(t)[0] == '/';
    case BlockComment(_) => assert PrintToken(t)[0] == '/';
    case ImportStmt(_, _) => assert PrintToken(t)[0] == "import"[0];
  }

  /** The expression sees a semicolon exactly where the tokens have one. */
  lemma EndedPrints(ts: seq<Token>, e: End)
    requires WellFormed(ts, e) && Legible(ts, e)
    ensures TrimmedStart(Print(ts, e)) == Print(DropSpaces(ts), e)
    ensures StartsWithChar(Print(DropSpaces(ts), e), ';') <==> Ended(ts)
  {
    GapPrints(ts, e);
    GapIsTrimmed(ts, Print(DropSpaces(ts), e));
    DroppedStays(ts, e);
    FirstChar(DropSpaces(ts), e);
  }

  // ----- Substitution is redirection of statements -----

  lemma StatementMatches(t: Token, ts: seq<Token>, e: End)
    requires TokenOk(t) && Spelled(t) && WellFormed(ts, e) && Legible(ts, e)
    ensures MatchStatement(PrintToken(t) + Print(ts, e))
         == if Ended(ts) then Some(Match(Unescaped(t.target), Print(DropSpaces(ts), e)[1..])) else None
  {
    SpelledMatches(t, Print(ts, e));
    EndedPrints(ts, e);
  }

  lemma EndedParts(ts: seq<Token>, e: End)
    requires Ended(ts)
    ensures var after := DropSpaces(ts)[1..];
      && Print(DropSpaces(ts), e) == ";" + Print(after, e) && Print(DropSpaces(ts), e)[1..] == Print(after, e)
      && Print(ts, e) == (Gap(ts) + ";") + Print(after, e)
  {
    GapPrints(ts, e);
    Associative(Gap(ts), ";", Print(DropSpaces(ts)[1..], e));
  }

  lemma Kept(redirect: Redirection, ts: seq<Token>, e: End)
    requires ts != [] && NewStatement(redirect, ts) == None
    ensures Print(Redirected(redirect, ts), e) == PrintToken(ts[0]) + Print(Redirected(redirect, ts[1..]), e)
  {
    var all := Redirected(redirect, ts);
    assert all[0] == ts[0] && all[1..] == Redirected(redirect, ts[1..]);
  }

  /** The white space and the semicolon behind an import that is not redirected stay. */
  lemma {:induction false} GapKept(redirect: Redirection, ts: seq<Token>, e: End)
    requires Ended(ts)
    ensures Print(Redirected(redirect, ts), e) == (Gap(ts) + ";") + Print(Redirected(redirect, DropSpaces(ts)[1..]), e)
    decreases |ts|
  {
    var after := Print(Redirected(redirect, DropSpaces(ts)[1..]), e);
    Kept(redirect, ts, e);
    if IsSpaceToken(ts[0]) {
      GapKept(redirect, ts[1..], e);
      assert PrintToken(ts[0]) == [ts[0].c];
      assert Gap(ts) + ";" == [ts[0].c] + (Gap(ts[1..]) + ";");
      Associative([ts[0].c], Gap(ts[1..]) + ";", after);
    } else {
      assert Gap(ts) + ";" == ";";
    }
  }

  lemma RenamedPrints(redirect: Redirection, ts: seq<Token>, e: End)
    requires ts != [] && NewStatement(redirect, ts).Some?
    ensures Print(Redirected(redirect, ts), e)
         == Replacement(NewStatement(redirect, ts).value, ";") + Print(Redirected(redirect, DropSpaces(ts[1..])[1..]), e)
  {
    var target, next := NewStatement(redirect, ts).value, DropSpaces(ts[1..]);
    var all := Redirected(redirect, ts);
    assert all[0] == NewImport(target) && all[1..] == Redirected(redirect, next);
    Kept(redirect, next, e);
    NewImportPrints(target);
    assert Replacement(target, ";") == Replacement(target, "") + ";";
    Associative(Replacement(target, ""), ";", Print(Redirected(redirect, next[1..]), e));
  }

  lemma EndedStep(redirect: Redirection, ts: seq<Token>, e: End)
    requires ts != [] && WellFormed(ts, e) && Legible(ts, e) && Spelled(ts[0]) && Ended(ts[1..])
    requires var after := DropSpaces(ts[1..])[1..];
      Substitute(Statement(), ";", redirect, Print(after, e)) == Print(Redirected(redirect, after), e)
    ensures Substitute(Statement(), ";", redirect, Print(ts, e)) == Print(Redirected(redirect, ts), e)
  {
    var t, rest := ts[0], ts[1..];
    var after := DropSpaces(rest)[1..];
    var text := PrintToken(t) + (Gap(rest) + ";");
    StatementMatches(t, rest, e);
    EndedParts(rest, e);
    Associative(PrintToken(t), Gap(rest) + ";", Print(after, e));
    MatchedStep(Statement(), ";", redirect, text, Print(after, e), Unescaped(t.target));
    if redirect(Unescaped(t.target)).Some? {
      RenamedPrints(redirect, ts, e);
    } else {
      Kept(redirect, ts, e);
      GapKept(redirect, rest, e);
      Associative(PrintToken(t), Gap(rest) + ";", Print(Redirected(redirect, after), e));
    }
  }

  lemma LaterIsUnmatched(t: Token, rest: string, i: nat)
    requires TokenOk(t) && Spelled(t) && QuietFrom(PrintToken(t), 1) && 0 < i < |PrintToken(t)|
    ensures MatchStatement(PrintToken(t)[i..] + rest) == None
  {
    var text := PrintToken(t);
    QuietIsUnmatched(t, rest, 1, text[1..], i - 1);
    assert text[1..][i - 1..] == text[i..];
  }

  lemma UnendedIsUnmatched(t: Token, ts: seq<Token>, e: End, i: nat)
    requires TokenOk(t) && Spelled(t) && WellFormed(ts, e) && Legible(ts, e) && !Ended(ts)
    requires QuietFrom(PrintToken(t), 1) && i < |PrintToken(t)|
    ensures MatchStatement(PrintToken(t)[i..] + Print(ts, e)) == None
  {
    if i == 0 {
      StatementMatches(t, ts, e);
      assert PrintToken(t)[0..] == PrintToken(t);
    } else {
      LaterIsUnmatched(t, Print(ts, e), i);
    }
  }

  lemma UnendedPasses(redirect: Redirection, t: Token, ts: seq<Token>, e: End)
    requires TokenOk(t) && Spelled(t) && WellFormed(ts, e) && Legible(ts, e) && !Ended(ts) && QuietFrom(PrintToken(t), 1)
    ensures Substitute(Statement(), ";", redirect, PrintToken(t) + Print(ts, e))
         == PrintToken(t) + Substitute(Statement(), ";", redirect, Print(ts, e))
  {
    forall i | 0 <= i < |PrintToken(t)|
      ensures Statement()(PrintToken(t)[i..] + Print(ts, e)) == None
    {
      UnendedIsUnmatched(t, ts, e, i);
    }
    UnmatchedPasses(Statement(), ";", redirect, PrintToken(t), Print(ts, e));
  }

  lemma UnendedStep(redirect: Redirection, ts: seq<Token>, e: End)
    requires ts != [] && WellFormed(ts, e) && Legible(ts, e) && Spelled(ts[0]) && !Ended(ts[1..])
    requires Substitute(Statement(), ";", redirect, Print(ts[1..], e)) == Print(Redirected(redirect, ts[1..]), e)
    ensures Substitute(Statement(), ";", redirect, Print(ts, e)) == Print(Redirected(redirect, ts), e)
  {
    Kept(redirect, ts, e);
    UnendedPasses(redirect, ts[0], ts[1..], e);
  }

  /**
   * On a legible document the substitution redirects exactly the spelled imports that a semicolon
   * ends, and keeps all else.
   */
  lemma {:induction false} SubstitutionRedirects(redirect: Redirection, ts: seq<Token>, e: End)
    requires WellFormed(ts, e) && Legible(ts, e)
    ensures Substitute(Statement(), ";", redirect, Print(ts, e)) == Print(Redirected(redirect, ts), e)
    decreases |ts|
  {
    if ts == [] {
      NoMatchPasses(Statement(), ";", redirect, PrintEnd(e));
    } else if !Spelled(ts[0]) {
      SubstitutionRedirects(redirect, ts[1..], e);
      Kept(redirect, ts, e);
      assert PrintToken(ts[0])[0..] == PrintToken(ts[0]);
      QuietPasses(Statement(), ";", redirect, ts[0], Print(ts[1..], e), 0, PrintToken(ts[0]));
    } else if Ended(ts[1..]) {
      DroppedStays(ts[1..], e);
      SubstitutionRedirects(redirect, DropSpaces(ts[1..])[1..], e);
      EndedStep(redirect, ts, e);
    } else {
      SubstitutionRedirects(redirect, ts[1..], e);
      UnendedStep(redirect, ts, e);
    }
  }

  // ----- What the scanner finds afterwards -----

  lemma {:induction false} RedirectedAlike(redirect: Redirection, ts: seq<Token>, e: End)
    ensures StartsAlike(Print(ts, e), Print(Redirected(redirect, ts), e))
    decreases |ts|
  {
    if ts != [] {
      match NewStatement(redirect, ts) {
        case Some(target) =>
          var all := Redirected(redirect, ts);
          assert all[0] == NewImport(target);
          ImportsAlike(ts[0].space, ts[0].target, Print(ts[1..], e), " ", PlainChars(target), Print(all[1..], e));
        case None =>
          Kept(redirect, ts, e);
          RedirectedAlike(redirect, ts[1..], e);
          AlikeBehindText(PrintToken(ts[0]), Print(ts[1..], e), Print(Redirected(redirect, ts[1..]), e));
      }
    }
  }

  lemma {:induction false} RedirectedIsWellFormed(redirect: Redirection, ts: seq<Token>, e: End)
    requires WellFormed(ts, e) && Legible(ts, e) && Printable(redirect)
    ensures WellFormed(Redirected(redirect, ts), e)
    decreases |ts|
  {
    if ts != [] {
      var all := Redirected(redirect, ts);
      match NewStatement(redirect, ts) {
        case Some(target) =>
          DroppedStays(ts[1..], e);
          RedirectedIsWellFormed(redirect, DropSpaces(ts[1..]), e);
          NewImportOk(redirect, ts[0]);
          assert all[0] == NewImport(target) && all[1..] == Redirected(redirect, DropSpaces(ts[1..]));
        case None =>
          RedirectedIsWellFormed(redirect, ts[1..], e);
          RedirectedAlike(redirect, ts[1..], e);
          SeparatedAlike(ts[0], Print(ts[1..], e), Print(Redirected(redirect, ts[1..]), e));
          assert all[0] == ts[0] && all[1..] == Redirected(redirect, ts[1..]);
      }
    }
  }

  /** Every import whose target changes is spelled, and ended by a semicolon, as the expression demands. */
  predicate ChangesAreStatements(redirect: Redirection, ts: seq<Token>) {
    ts == [] ||
      ((Changes(redirect, ts[0]) ==> Spelled(ts[0]) && Ended(ts[1..])) && ChangesAreStatements(redirect, ts[1..]))
  }

  function StatementTarget(redirect: Redirection, ts: seq<Token>): string
    requires ts != [] && ts[0].ImportStmt?
  {
    match NewStatement(redirect, ts) case Some(target) => target case None => Unescaped(ts[0].target)
  }

  lemma {:induction false} DroppedTargets(redirect: Redirection, ts: seq<Token>, e: End)
    ensures Targets(Redirected(redirect, DropSpaces(ts)), e) == Targets(Redirected(redirect, ts), e)
    decreases |ts|
  {
    if ts != [] && IsSpaceToken(ts[0]) {
      DroppedTargets(redirect, ts[1..], e);
      var all := Redirected(redirect, ts);
      assert all[0] == ts[0] && all[1..] == Redirected(redirect, ts[1..]);
      assert Targets(all, e) == [] + Targets(all[1..], e);
    }
  }

  lemma TargetsCons(redirect: Redirection, ts: seq<Token>, e: End)
    requires ts != []
    ensures Targets(Redirected(redirect, ts), e)
         == (if ts[0].ImportStmt? then [StatementTarget(redirect, ts)] else []) + Targets(Redirected(redirect, ts[1..]), e)
  {
    var all := Redirected(redirect, ts);
    match NewStatement(redirect, ts)
    case Some(target) =>
      assert all[0] == NewImport(target) && all[1..] == Redirected(redirect, DropSpaces(ts[1..]));
      UnescapedAt(PlainChars(target));
      assert Unescaped(PlainChars(target)) == target;
      DroppedTargets(redirect, ts[1..], e);
    case None =>
      assert all[0] == ts[0] && all[1..] == Redirected(redirect, ts[1..]);
  }

  lemma StatementTargets(redirect: Redirection, ts: seq<Token>, later: seq<string>, later': seq<string>)
    requires ts != [] && ts[0].ImportStmt?
    ensures [StatementTarget(redirect, ts)] + later' == RedirectTargets(redirect, [Unescaped(ts[0].target)] + later)
       <==> (Changes(redirect, ts[0]) ==> Spelled(ts[0]) && Ended(ts[1..])) && later' == RedirectTargets(redirect, later)
  {
    var target := Unescaped(ts[0].target);
    RedirectTargetsCons(redirect, target, later);
    SameLists(StatementTarget(redirect, ts), later', RedirectTarget(redirect, target), RedirectTargets(redirect, later));
  }

  lemma {:induction false} TargetsRedirected(redirect: Redirection, ts: seq<Token>, e: End)
    requires !e.OpenImport?
    ensures Targets(Redirected(redirect, ts), e) == RedirectTargets(redirect, Targets(ts, e))
       <==> ChangesAreStatements(redirect, ts)
    decreases |ts|
  {
    if ts == [] {
      assert RedirectTargets(redirect, []) == [];
    } else {
      var later, later' := Targets(ts[1..], e), Targets(Redirected(redirect, ts[1..]), e);
      TargetsRedirected(redirect, ts[1..], e);
      TargetsCons(redirect, ts, e);
      if ts[0].ImportStmt? {
        StatementTargets(redirect, ts, later, later');
      } else {
        assert [] + later == later && [] + later' == later';
      }
    }
  }

  lemma {:induction false} NoOpenImport(ts: seq<Token>, e: End)
    requires Legible(ts, e)
    ensures !e.OpenImport?
  {
    if ts != [] {
      NoOpenImport(ts[1..], e);
    }
  }

  /**
   * On a legible document the substitution redirects what the scanner finds, if and only if every
   * import whose target changes is spelled plainly and has its semicolon next.
   */
  lemma SubstitutionMeetsScanner(redirect: Redirection, ts: seq<Token>, e: End)
    requires WellFormed(ts, e) && Legible(ts, e) && Printable(redirect)
    ensures Scan(false, Substitute(Statement(), ";", redirect, Print(ts, e))) == RedirectTargets(redirect, Scan(false, Print(ts, e)))
       <==> ChangesAreStatements(redirect, ts)
  {
    SubstitutionRedirects(redirect, ts, e);
    RedirectedIsWellFormed(redirect, ts, e);
    ScanPrinted(false, ts, e);
    ScanPrinted(false, Redirected(redirect, ts), e);
    NoOpenImport(ts, e);
    TargetsRedirected(redirect, ts, e);
  }
}
