/**
 * Rewriting the imports of a spec's text by regular expression, proved against the tokens that the
 * import scanner finds in it.
 */
module ImportRewriter {
  import opened Options
  import opened Text
  import opened ImportScanner

  // ----- The two regular expressions and their substitution -----

  function UntilQuote(s: string): string {
    if s == "" || s[0] == '"' then "" else [s[0]] + UntilQuote(s[1..])
  }

  datatype Match = Match(target: string, rest: string)

  /** `import\s+"([^"]+)"` at the start of `s`. */
  function MatchQuoted(s: string): (m: Option<Match>)
    ensures m.Some? ==> |m.value.rest| < |s| && s[|s| - |m.value.rest|..] == m.value.rest
  {
    if "import" <= s && |s| > 6 && IsSpace(s[6]) then
      TrimmedIsSuffix(s[6..]);
      var quoted := TrimmedStart(s[6..]);
      if StartsWithChar(quoted, '"') then
        var target := UntilQuote(quoted[1..]);
        UntilQuoteIsPrefix(quoted[1..]);
        var rest := quoted[1 + |target|..];
        if target != "" && rest != "" then Some(Match(target, rest[1..])) else None
      else None
    else None
  }

  /** The same, followed by `\s*;`. */
  function MatchStatement(s: string): (m: Option<Match>)
    ensures m.Some? ==> |m.value.rest| < |s| && s[|s| - |m.value.rest|..] == m.value.rest
  {
    match MatchQuoted(s)
    case None => None
    case Some(m) =>
      TrimmedIsSuffix(m.rest);
      var after := TrimmedStart(m.rest);
      if StartsWithChar(after, ';') then Some(Match(m.target, after[1..])) else None
  }

  lemma {:induction false} TrimmedIsSuffix(s: string)
    ensures |TrimmedStart(s)| <= |s| && s[|s| - |TrimmedStart(s)|..] == TrimmedStart(s)
  {
    if s != "" && IsSpace(s[0]) {
      TrimmedIsSuffix(s[1..]);
    }
  }

  lemma {:induction false} UntilQuoteIsPrefix(s: string)
    ensures UntilQuote(s) <= s
    ensures |UntilQuote(s)| < |s| ==> s[|UntilQuote(s)|] == '"'
  {
    if s != "" && s[0] != '"' {
      UntilQuoteIsPrefix(s[1..]);
    }
  }

  type Redirection = string -> Option<string>

  /** A regular expression: the match at the start of a text. */
  type Finder = string -> Option<Match>

  function Quoted(): Finder {
    s => MatchQuoted(s)
  }

  function Statement(): Finder {
    s => MatchStatement(s)
  }

  /** What replaces a match: the import with its new target, and how the expression ends. */
  function Replacement(target: string, end: string): string {
    "import \"" + target + "\"" + end
  }

  /** Replaces every match whose target is redirected, from left to right. */
  function Substitute(find: Finder, end: string, redirect: Redirection, s: string): string
    decreases |s|
  {
    if s == "" then ""
    else
      match find(s)
      case None => [s[0]] + Substitute(find, end, redirect, s[1..])
      case Some(m) =>
        if |m.rest| >= |s| then s
        else
          (match redirect(m.target) case Some(target) => Replacement(target, end) case None => s[..|s| - |m.rest|])
          + Substitute(find, end, redirect, m.rest)
  }

  // ----- Tokens that the expressions read as intended -----

  predicate AllPlain(chars: seq<StrChar>) {
    forall i :: 0 <= i < |chars| ==> chars[i].Plain?
  }

  /** An import statement spelled with white space and an unescaped, non-empty target. */
  predicate Spelled(t: Token) {
    t.ImportStmt? && t.space != "" && t.target != [] && AllPlain(t.target)
  }

  /** From an offset on no match starts in the text, whatever follows. */
  predicate QuietFrom(text: string, from: nat) {
    forall i :: from <= i && i + 6 <= |text| && "import" <= text[i..] ==>
      var after := TrimmedStart(text[i + 6..]);
      after != "" && !(IsSpace(text[i + 6]) && after[0] == '"')
  }

  predicate Quiet(text: string) {
    QuietFrom(text, 0)
  }

  predicate NoMatch(text: string) {
    forall i :: 0 <= i < |text| ==> MatchQuoted(text[i..]) == None
  }

  /** Every token is spelled as an import, or no match starts in it. */
  predicate Readable(ts: seq<Token>, e: End) {
    if ts == [] then NoMatch(PrintEnd(e)) && !e.OpenImport?
    else (Spelled(ts[0]) || Quiet(PrintToken(ts[0]))) && Readable(ts[1..], e)
  }

  function PlainChars(s: string): seq<StrChar> {
    seq(|s|, i requires 0 <= i < |s| => Plain(s[i]))
  }

  function NewImport(target: string): Token {
    ImportStmt(" ", PlainChars(target))
  }

  /** The new target of a token that the expression rewrites. */
  function NewTarget(redirect: Redirection, t: Token): Option<string> {
    if Spelled(t) then redirect(Unescaped(t.target)) else None
  }

  function Redirected(redirect: Redirection, ts: seq<Token>): seq<Token> {
    if ts == [] then []
    else
      (match NewTarget(redirect, ts[0]) case Some(target) => [NewImport(target)] case None => [ts[0]])
      + Redirected(redirect, ts[1..])
  }

  // ----- No match inside a quiet token -----

  lemma {:induction false} TrimmedFront(a: string, b: string)
    ensures TrimmedStart(a) != "" ==> TrimmedStart(a + b) == TrimmedStart(a) + b
    ensures TrimmedStart(a) == "" ==> TrimmedStart(a + b) == TrimmedStart(b)
  {
    if a == "" {
      assert a + b == b;
    } else {
      assert (a + b)[1..] == a[1..] + b && (a + b)[0] == a[0];
      if IsSpace(a[0]) {
        TrimmedFront(a[1..], b);
      }
    }
  }

  /** The last character of a token that is not a word is no word character. */
  lemma TokenEnds(t: Token)
    requires TokenOk(t)
    ensures PrintToken(t) != ""
    ensures t.Word? <==> IsWordChar(PrintToken(t)[|PrintToken(t)| - 1])
  {
  }

  lemma StraddlingKeyword(text: string, rest: string, i: nat)
    requires i < |text| < i + 6 && "import" <= (text + rest)[i..]
    ensures IsWordChar(text[|text| - 1]) && StartsWithWordChar(rest)
  {
    var s, n := text + rest, |text| - i;
    assert s[i..][n - 1] == s[|text| - 1] == text[|text| - 1] && s[i..][n] == s[|text|] == rest[0];
    assert forall k :: 0 <= k < 6 ==> s[i..][k] == "import"[k] && IsWordChar("import"[k]);
  }

  lemma KeywordInside(t: Token, rest: string, i: nat)
    requires TokenOk(t) && Separated(t, rest) && i < |PrintToken(t)| && "import" <= (PrintToken(t) + rest)[i..]
    ensures i + 6 <= |PrintToken(t)| && "import" <= PrintToken(t)[i..]
  {
    var text := PrintToken(t);
    TokenEnds(t);
    if i + 6 > |text| {
      StraddlingKeyword(text, rest, i);
    } else {
      assert text[i..][..6] == (text + rest)[i..][..6];
    }
  }

  lemma QuietHasNoMatch(t: Token, rest: string, i: nat)
    requires TokenOk(t) && Separated(t, rest) && QuietFrom(PrintToken(t), i) && i < |PrintToken(t)|
    ensures MatchQuoted((PrintToken(t) + rest)[i..]) == None
  {
    var text := PrintToken(t);
    var s := (text + rest)[i..];
    if "import" <= s {
      KeywordInside(t, rest, i);
      var after := TrimmedStart(text[i + 6..]);
      TrimmedFront(text[i + 6..], rest);
      assert s[6..] == text[i + 6..] + rest;
      assert after != "" && |text| > i + 6;
      assert s[6] == text[i + 6];
    }
  }

  lemma UnmatchedStep(find: Finder, end: string, redirect: Redirection, m: string, rest: string, i: nat)
    requires i < |m| && find(m[i..] + rest) == None
    ensures Substitute(find, end, redirect, m[i..] + rest) == [m[i]] + Substitute(find, end, redirect, m[i + 1..] + rest)
  {
    var s := m[i..] + rest;
    assert s[0] == m[i] && s[1..] == m[i + 1..] + rest;
  }

  /** A text in which no match starts passes. */
  lemma UnmatchedPasses(find: Finder, end: string, redirect: Redirection, m: string, rest: string)
    requires forall i :: 0 <= i < |m| ==> find(m[i..] + rest) == None
    ensures Substitute(find, end, redirect, m + rest) == m + Substitute(find, end, redirect, rest)
  {
    var f := s => Substitute(find, end, redirect, s);
    forall i | 0 <= i < |m|
      ensures f(m[i..] + rest) == [m[i]] + f(m[i + 1..] + rest)
    {
      UnmatchedStep(find, end, redirect, m, rest, i);
    }
    CharByChar(f, m, rest);
  }

  lemma QuietLater(text: string, from: nat, later: nat)
    requires QuietFrom(text, from) && from <= later
    ensures QuietFrom(text, later)
  {
  }

  lemma QuietIsUnmatched(t: Token, rest: string, from: nat, m: string, i: nat)
    requires TokenOk(t) && Separated(t, rest) && QuietFrom(PrintToken(t), from)
    requires from + i < |PrintToken(t)| && m == PrintToken(t)[from..]
    ensures MatchQuoted(m[i..] + rest) == None
  {
    QuietLater(PrintToken(t), from, from + i);
    QuietHasNoMatch(t, rest, from + i);
    SuffixOf(PrintToken(t), rest, from, i);
  }

  lemma SuffixOf(text: string, rest: string, from: nat, i: nat)
    requires from + i <= |text|
    ensures text[from..][i..] + rest == (text + rest)[from + i..]
  {
  }

  lemma QuietPasses(find: Finder, end: string, redirect: Redirection, t: Token, rest: string, from: nat, m: string)
    requires TokenOk(t) && Separated(t, rest) && QuietFrom(PrintToken(t), from)
    requires from <= |PrintToken(t)| && m == PrintToken(t)[from..]
    requires forall s :: MatchQuoted(s) == None ==> find(s) == None
    ensures Substitute(find, end, redirect, m + rest) == m + Substitute(find, end, redirect, rest)
  {
    forall i | 0 <= i < |m|
      ensures find(m[i..] + rest) == None
    {
      QuietIsUnmatched(t, rest, from, m, i);
    }
    UnmatchedPasses(find, end, redirect, m, rest);
  }

  lemma NoMatchPasses(find: Finder, end: string, redirect: Redirection, s: string)
    requires NoMatch(s) && forall s :: MatchQuoted(s) == None ==> find(s) == None
    ensures Substitute(find, end, redirect, s) == s
  {
    forall i | 0 <= i < |s|
      ensures find(s[i..] + "") == None
    {
      assert s[i..] + "" == s[i..];
    }
    UnmatchedPasses(find, end, redirect, s, "");
    assert s + "" == s;
  }

  // ----- A spelled import is matched as a whole -----

  lemma {:induction false} PlainPrints(chars: seq<StrChar>)
    requires AllPlain(chars)
    ensures PrintChars(chars) == Unescaped(chars)
  {
    if chars != [] {
      PlainPrints(chars[1..]);
    }
  }

  lemma {:induction false} UnescapedAt(chars: seq<StrChar>)
    ensures |Unescaped(chars)| == |chars| && forall i :: 0 <= i < |chars| ==> Unescaped(chars)[i] == chars[i].c
  {
    if chars != [] {
      UnescapedAt(chars[1..]);
    }
  }

  lemma {:induction false} UntilQuoteOf(text: string, rest: string)
    requires '"' !in text
    ensures UntilQuote(text + ("\"" + rest)) == text
    decreases |text|
  {
    var s := text + ("\"" + rest);
    if text == "" {
      assert s[0] == '"';
    } else {
      assert s[0] == text[0] && s[1..] == text[1..] + ("\"" + rest);
      UntilQuoteOf(text[1..], rest);
    }
  }

  lemma {:induction false} SpacesTrimmed(space: string, rest: string)
    requires AllSpace(space) && rest != "" && !IsSpace(rest[0])
    ensures TrimmedStart(space + rest) == rest
    decreases |space|
  {
    if space == "" {
      assert space + rest == rest;
    } else {
      assert (space + rest)[1..] == space[1..] + rest;
      SpacesTrimmed(space[1..], rest);
    }
  }

  lemma QuotedMatches(space: string, text: string, rest: string)
    requires AllSpace(space) && space != "" && text != "" && '"' !in text
    ensures MatchQuoted("import" + (space + ("\"" + (text + ("\"" + rest))))) == Some(Match(text, rest))
  {
    var quoted := "\"" + (text + ("\"" + rest));
    var s := "import" + (space + quoted);
    assert s[6..] == space + quoted && s[6] == space[0];
    SpacesTrimmed(space, quoted);
    assert quoted[1..] == text + ("\"" + rest);
    UntilQuoteOf(text, rest);
    assert quoted[1 + |text|..] == "\"" + rest;
    assert ("\"" + rest)[1..] == rest;
  }

  lemma ImportText(space: string, text: string, rest: string)
    ensures ("import" + space + "\"" + text + "\"") + rest == "import" + (space + ("\"" + (text + ("\"" + rest))))
  {
  }

  lemma SpelledMatches(t: Token, rest: string)
    requires TokenOk(t) && Spelled(t)
    ensures MatchQuoted(PrintToken(t) + rest) == Some(Match(Unescaped(t.target), rest))
  {
    PlainPrints(t.target);
    SpelledNeedsNoEscape(t);
    UnescapedAt(t.target);
    QuotedMatches(t.space, PrintChars(t.target), rest);
    ImportText(t.space, PrintChars(t.target), rest);
  }

  lemma NewImportPrints(target: string)
    ensures PrintToken(NewImport(target)) == Replacement(target, "")
  {
    PlainPrints(PlainChars(target));
    UnescapedAt(PlainChars(target));
    assert Unescaped(PlainChars(target)) == target;
    assert "import" + " " + "\"" == "import \"";
    assert Replacement(target, "") == "import \"" + target + "\"";
  }

  // ----- Substitution is redirection of tokens -----

  lemma MatchedStep(find: Finder, end: string, redirect: Redirection, text: string, rest: string, target: string)
    requires text != "" && find(text + rest) == Some(Match(target, rest))
    ensures Substitute(find, end, redirect, text + rest)
         == (match redirect(target) case Some(renamed) => Replacement(renamed, end) case None => text)
          + Substitute(find, end, redirect, rest)
  {
    var s := text + rest;
    assert s[..|s| - |rest|] == text;
  }

  lemma ImportPasses(redirect: Redirection, t: Token, rest: string)
    requires TokenOk(t) && Spelled(t)
    ensures Substitute(Quoted(), "", redirect, PrintToken(t) + rest)
         == (match NewTarget(redirect, t) case Some(target) => PrintToken(NewImport(target)) case None => PrintToken(t))
          + Substitute(Quoted(), "", redirect, rest)
  {
    SpelledMatches(t, rest);
    TokenEnds(t);
    MatchedStep(Quoted(), "", redirect, PrintToken(t), rest, Unescaped(t.target));
    var target := redirect(Unescaped(t.target));
    if target.Some? {
      NewImportPrints(target.value);
    }
  }

  lemma RedirectedCons(redirect: Redirection, ts: seq<Token>, e: End)
    requires ts != []
    ensures Print(Redirected(redirect, ts), e)
         == (match NewTarget(redirect, ts[0]) case Some(target) => PrintToken(NewImport(target)) case None => PrintToken(ts[0]))
          + Print(Redirected(redirect, ts[1..]), e)
  {
    var first := match NewTarget(redirect, ts[0]) case Some(target) => NewImport(target) case None => ts[0];
    assert Redirected(redirect, ts) == [first] + Redirected(redirect, ts[1..]);
    assert ([first] + Redirected(redirect, ts[1..]))[1..] == Redirected(redirect, ts[1..]);
  }

  /** On a readable document the substitution redirects exactly the spelled imports, and keeps all else. */
  lemma {:induction false} SubstitutionRedirects(redirect: Redirection, ts: seq<Token>, e: End)
    requires WellFormed(ts, e) && Readable(ts, e)
    ensures Substitute(Quoted(), "", redirect, Print(ts, e)) == Print(Redirected(redirect, ts), e)
    decreases |ts|
  {
    if ts == [] {
      NoMatchPasses(Quoted(), "", redirect, PrintEnd(e));
    } else {
      var t, rest := ts[0], Print(ts[1..], e);
      SubstitutionRedirects(redirect, ts[1..], e);
      RedirectedCons(redirect, ts, e);
      if Spelled(t) {
        ImportPasses(redirect, t, rest);
      } else {
        assert PrintToken(t)[0..] == PrintToken(t);
        QuietPasses(Quoted(), "", redirect, t, rest, 0, PrintToken(t));
      }
    }
  }

  // ----- What the scanner finds afterwards -----

  predicate NeedsNoEscape(s: string) {
    '"' !in s && '\\' !in s
  }

  /** Targets without escapes are redirected to targets without escapes. */
  ghost predicate Printable(redirect: Redirection) {
    forall target: string :: NeedsNoEscape(target) && redirect(target).Some? ==>
      redirect(target).value != "" && NeedsNoEscape(redirect(target).value)
  }

  lemma SpelledNeedsNoEscape(t: Token)
    requires TokenOk(t) && Spelled(t)
    ensures NeedsNoEscape(Unescaped(t.target))
  {
    UnescapedAt(t.target);
  }

  lemma NewImportOk(redirect: Redirection, t: Token)
    requires Printable(redirect) && TokenOk(t) && NewTarget(redirect, t).Some?
    ensures var renewed := NewImport(NewTarget(redirect, t).value);
      TokenOk(renewed) && Spelled(renewed) && Unescaped(renewed.target) == NewTarget(redirect, t).value
  {
    var target := NewTarget(redirect, t).value;
    SpelledNeedsNoEscape(t);
    assert redirect(Unescaped(t.target)).Some?;
    UnescapedAt(PlainChars(target));
    assert Unescaped(PlainChars(target)) == target;
    assert forall i :: 0 <= i < |target| ==> target[i] in target;
  }

  /** A text starts like another one as far as the tokens before it are concerned. */
  predicate StartsAlike(s: string, s': string) {
    && (s == "" <==> s' == "")
    && (s != "" ==> s[0] == s'[0])
    && (StartsWithChar(SkipSpace(s), '"') <==> StartsWithChar(SkipSpace(s'), '"'))
    && (StartsWithChar(TrimmedStart(s), ';') <==> StartsWithChar(TrimmedStart(s'), ';'))
  }

  lemma AlikeBehind(c: char, s: string, s': string)
    requires StartsAlike(s, s')
    ensures StartsAlike([c] + s, [c] + s')
  {
    assert ([c] + s)[1..] == s && ([c] + s')[1..] == s';
  }

  lemma {:induction false} AlikeBehindText(text: string, s: string, s': string)
    requires StartsAlike(s, s')
    ensures StartsAlike(text + s, text + s')
    decreases |text|
  {
    if text == "" {
      assert text + s == s && text + s' == s';
    } else {
      AlikeBehindText(text[1..], s, s');
      AlikeBehind(text[0], text[1..] + s, text[1..] + s');
      assert text + s == [text[0]] + (text[1..] + s) && text + s' == [text[0]] + (text[1..] + s');
    }
  }

  lemma ImportsAlike(space: string, target: seq<StrChar>, s: string, space': string, target': seq<StrChar>, s': string)
    ensures StartsAlike(PrintToken(ImportStmt(space, target)) + s, PrintToken(ImportStmt(space', target')) + s')
  {
    assert (PrintToken(ImportStmt(space, target)) + s)[0] == "import"[0];
    assert (PrintToken(ImportStmt(space', target')) + s')[0] == "import"[0];
  }

  lemma {:induction false} RedirectedAlike(redirect: Redirection, ts: seq<Token>, e: End)
    ensures StartsAlike(Print(ts, e), Print(Redirected(redirect, ts), e))
    decreases |ts|
  {
    if ts != [] {
      var rest, rest' := Print(ts[1..], e), Print(Redirected(redirect, ts[1..]), e);
      RedirectedCons(redirect, ts, e);
      RedirectedAlike(redirect, ts[1..], e);
      match NewTarget(redirect, ts[0])
      case Some(target) => ImportsAlike(ts[0].space, ts[0].target, rest, " ", PlainChars(target), rest');
      case None => AlikeBehindText(PrintToken(ts[0]), rest, rest');
    }
  }

  lemma SeparatedAlike(t: Token, rest: string, rest': string)
    requires Separated(t, rest) && StartsAlike(rest, rest')
    ensures Separated(t, rest')
  {
  }

  /** Redirecting keeps a document well-formed and readable, so that it can be redirected again. */
  lemma {:induction false} RedirectedIsReadable(redirect: Redirection, ts: seq<Token>, e: End)
    requires WellFormed(ts, e) && Readable(ts, e) && Printable(redirect)
    ensures WellFormed(Redirected(redirect, ts), e) && Readable(Redirected(redirect, ts), e)
    decreases |ts|
  {
    if ts != [] {
      RedirectedIsReadable(redirect, ts[1..], e);
      RedirectedAlike(redirect, ts[1..], e);
      SeparatedAlike(ts[0], Print(ts[1..], e), Print(Redirected(redirect, ts[1..]), e));
      var first := match NewTarget(redirect, ts[0]) case Some(target) => NewImport(target) case None => ts[0];
      if NewTarget(redirect, ts[0]).Some? {
        NewImportOk(redirect, ts[0]);
      }
      var all := Redirected(redirect, ts);
      assert all[0] == first && all[1..] == Redirected(redirect, ts[1..]);
    }
  }

  function RedirectTarget(redirect: Redirection, target: string): string {
    match redirect(target) case Some(renamed) => renamed case None => target
  }

  function RedirectTargets(redirect: Redirection, targets: seq<string>): seq<string> {
    seq(|targets|, i requires 0 <= i < |targets| => RedirectTarget(redirect, targets[i]))
  }

  predicate Changes(redirect: Redirection, t: Token) {
    t.ImportStmt? && RedirectTarget(redirect, Unescaped(t.target)) != Unescaped(t.target)
  }

  /** Every import whose target changes is spelled so that the expression reads it. */
  predicate ChangesAreSpelled(redirect: Redirection, ts: seq<Token>) {
    ts == [] || ((Changes(redirect, ts[0]) ==> Spelled(ts[0])) && ChangesAreSpelled(redirect, ts[1..]))
  }

  lemma SameLists<T>(a: T, as_: seq<T>, b: T, bs: seq<T>)
    ensures [a] + as_ == [b] + bs <==> a == b && as_ == bs
  {
    assert ([a] + as_)[0] == a && ([a] + as_)[1..] == as_;
    assert ([b] + bs)[0] == b && ([b] + bs)[1..] == bs;
  }

  lemma RedirectTargetsCons(redirect: Redirection, target: string, targets: seq<string>)
    ensures RedirectTargets(redirect, [target] + targets)
         == [RedirectTarget(redirect, target)] + RedirectTargets(redirect, targets)
  {
  }

  /** The target that an import has after the substitution. */
  function TargetAfter(redirect: Redirection, t: Token): string
    requires t.ImportStmt?
  {
    match NewTarget(redirect, t) case Some(target) => target case None => Unescaped(t.target)
  }

  lemma TargetsCons(redirect: Redirection, ts: seq<Token>, e: End)
    requires ts != []
    ensures Targets(Redirected(redirect, ts), e)
         == (if ts[0].ImportStmt? then [TargetAfter(redirect, ts[0])] else []) + Targets(Redirected(redirect, ts[1..]), e)
  {
    var first := match NewTarget(redirect, ts[0]) case Some(target) => NewImport(target) case None => ts[0];
    var all := Redirected(redirect, ts);
    assert all[0] == first && all[1..] == Redirected(redirect, ts[1..]);
    match NewTarget(redirect, ts[0])
    case Some(target) =>
      UnescapedAt(PlainChars(target));
      assert Unescaped(PlainChars(target)) == target;
    case None =>
  }

  lemma TargetMeets(redirect: Redirection, t: Token)
    requires t.ImportStmt?
    ensures TargetAfter(redirect, t) == RedirectTarget(redirect, Unescaped(t.target))
       <==> (Changes(redirect, t) ==> Spelled(t))
  {
  }

  lemma ImportTargets(redirect: Redirection, t: Token, later: seq<string>, later': seq<string>)
    requires t.ImportStmt?
    ensures [TargetAfter(redirect, t)] + later' == RedirectTargets(redirect, [Unescaped(t.target)] + later)
       <==> (Changes(redirect, t) ==> Spelled(t)) && later' == RedirectTargets(redirect, later)
  {
    var target := Unescaped(t.target);
    TargetMeets(redirect, t);
    RedirectTargetsCons(redirect, target, later);
    SameLists(TargetAfter(redirect, t), later', RedirectTarget(redirect, target), RedirectTargets(redirect, later));
  }

  lemma {:induction false} TargetsRedirected(redirect: Redirection, ts: seq<Token>, e: End)
    requires !e.OpenImport?
    ensures Targets(Redirected(redirect, ts), e) == RedirectTargets(redirect, Targets(ts, e))
       <==> ChangesAreSpelled(redirect, ts)
    decreases |ts|
  {
    if ts == [] {
      assert RedirectTargets(redirect, []) == [];
    } else {
      var later, later' := Targets(ts[1..], e), Targets(Redirected(redirect, ts[1..]), e);
      TargetsRedirected(redirect, ts[1..], e);
      TargetsCons(redirect, ts, e);
      if ts[0].ImportStmt? {
        ImportTargets(redirect, ts[0], later, later');
      } else {
        assert [] + later == later && [] + later' == later';
      }
    }
  }

  /**
   * On a readable document the substitution redirects what the scanner finds, if and only if every
   * import whose target changes is spelled with white space and without escapes.
   */
  lemma SubstitutionMeetsScanner(redirect: Redirection, ts: seq<Token>, e: End)
    requires WellFormed(ts, e) && Readable(ts, e) && Printable(redirect)
    ensures Scan(false, Substitute(Quoted(), "", redirect, Print(ts, e))) == RedirectTargets(redirect, Scan(false, Print(ts, e)))
       <==> ChangesAreSpelled(redirect, ts)
  {
    SubstitutionRedirects(redirect, ts, e);
    RedirectedIsReadable(redirect, ts, e);
    ScanPrinted(false, ts, e);
    ScanPrinted(false, Redirected(redirect, ts), e);
    NoOpenImport(ts, e);
    TargetsRedirected(redirect, ts, e);
  }

  lemma {:induction false} NoOpenImport(ts: seq<Token>, e: End)
    requires Readable(ts, e)
    ensures !e.OpenImport?
  {
    if ts != [] {
      NoOpenImport(ts[1..], e);
    }
  }

  // ----- Imports that the expression misses -----

  const PACKED := [ImportStmt("", [Plain('a')]), Punct(';')]

  /** An import without white space is found by the scanner but not by the expression. */
  lemma PackedImportIsMissed(redirect: Redirection)
    requires Printable(redirect) && redirect("a") == Some("b")
    ensures Print(PACKED, Eof) == "import\"a\";" && Scan(false, Print(PACKED, Eof)) == ["a"]
    ensures Substitute(Quoted(), "", redirect, Print(PACKED, Eof)) == Print(PACKED, Eof)
    ensures !ChangesAreSpelled(redirect, PACKED)
  {
    PackedPrint();
    PackedIsReadable();
    ScanPrinted(false, PACKED, Eof);
    SubstitutionRedirects(redirect, PACKED, Eof);
    assert PACKED[1..] == [Punct(';')] && [Punct(';')][1..] == [];
    assert Redirected(redirect, [Punct(';')]) == [Punct(';')] + Redirected(redirect, []);
    assert Redirected(redirect, PACKED) == [PACKED[0]] + Redirected(redirect, PACKED[1..]) == PACKED;
    assert [Plain('a')][1..] == [];
    assert Unescaped([Plain('a')]) == "a";
    assert Targets([Punct(';')], Eof) == Targets([], Eof) == [];
    assert Targets(PACKED, Eof) == ["a"] + Targets(PACKED[1..], Eof);
  }

  lemma PackedPrint()
    ensures Print(PACKED, Eof) == "import\"a\";" && PrintToken(PACKED[0]) == "import\"a\""
  {
    assert PACKED[1..] == [Punct(';')] && [Punct(';')][1..] == [];
    assert [Plain('a')][1..] == [];
    assert PrintChars([Plain('a')]) == "a";
    assert Print([Punct(';')], Eof) == ";" + Print([], Eof);
  }

  lemma PackedIsReadable()
    ensures WellFormed(PACKED, Eof) && Readable(PACKED, Eof)
  {
    PackedPrint();
    var text := "import\"a\"";
    assert PACKED[1..] == [Punct(';')] && [Punct(';')][1..] == [];
    forall i | 0 <= i && i + 6 <= |text| && "import" <= text[i..]
      ensures i == 0
    {
      assert text[i..][0] == "import"[0] && text[i] == text[i..][0];
      assert forall k :: 1 <= k < 4 ==> text[k] != 'i';
    }
    assert text[6..] == "\"a\"" && !IsSpace(text[6]);
    assert Quiet(text);
    assert Quiet(";");
  }
}
