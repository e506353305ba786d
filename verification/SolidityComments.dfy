/** What a munged contract says outside its comments. */
module SolidityComments {
  import opened Text
  import opened EmitMunger

  // ----- Reading without comments -----

  function FromLineEnd(s: string): (r: string)
    ensures |r| <= |s| && (r == "" || r[0] == '\n')
  {
    if s == "" || s[0] == '\n' then s else FromLineEnd(s[1..])
  }

  function BehindBlock(s: string): (r: string)
    ensures |r| <= |s|
  {
    if |s| < 2 then "" else if s[0] == '*' && s[1] == '/' then s[2..] else BehindBlock(s[1..])
  }

  /** The text with each comment replaced by a space; a line comment ends before the line break. */
  function Uncommented(s: string): string
    decreases |s|
  {
    if s == "" then ""
    else if "//" <= s then " " + Uncommented(FromLineEnd(s[1..]))
    else if "/*" <= s then " " + Uncommented(BehindBlock(s[2..]))
    else [s[0]] + Uncommented(s[1..])
  }

  /** No quote, no end of a comment, and no slash before a slash, a star or an emit. */
  predicate PlainAt(s: string, i: nat)
    requires i < |s|
  {
    && s[i] != '"' && s[i] != '\''
    && !("//" <= s[i..]) && !("/*" <= s[i..]) && !("*/" <= s[i..]) && !("/emit" <= s[i..])
  }

  predicate PlainText(s: string) {
    forall i :: 0 <= i < |s| ==> PlainAt(s, i)
  }

  // ----- The input without its emit statements -----

  /** Each emit statement replaced by three spaces. */
  function OnlyEmitsBlanked(afterWord: bool, s: string): string
    decreases |s|
  {
    if s == "" then ""
    else if EmitAt(afterWord, s) then "   " + OnlyEmitsBlanked(false, s[EmitLength(s)..])
    else [s[0]] + OnlyEmitsBlanked(IsWordChar(s[0]), s[1..])
  }

  /** The same, with the rest of the line behind a statement that is on one line left out. */
  function Blanked(afterWord: bool, s: string): string
    decreases |s|
  {
    if s == "" then ""
    else if EmitAt(afterWord, s) then
      var n := EmitLength(s);
      "   " + Blanked(false, if '\n' in s[..n] then s[n..] else FromLineEnd(s[n..]))
    else [s[0]] + Blanked(IsWordChar(s[0]), s[1..])
  }

  /** Statements on one line end their lines. */
  predicate SingleEndsLine(afterWord: bool, s: string)
    decreases |s|
  {
    s == "" ||
      if EmitAt(afterWord, s) then
        var n := EmitLength(s);
        && ('\n' in s[..n] || s[n..] == "" || s[n] == '\n')
        && SingleEndsLine(false, s[n..])
      else SingleEndsLine(IsWordChar(s[0]), s[1..])
  }

  /** No statement that starts on the rest of the line goes beyond it. */
  predicate NoneLeavesLine(afterWord: bool, s: string)
    decreases |s|
  {
    s == "" || s[0] == '\n' ||
      if EmitAt(afterWord, s) then '\n' !in s[..EmitLength(s)] && NoneLeavesLine(false, s[EmitLength(s)..])
      else NoneLeavesLine(IsWordChar(s[0]), s[1..])
  }

  /** A statement with line breaks is the first one on its line. */
  predicate MultiIsFirst(afterWord: bool, s: string)
    decreases |s|
  {
    s == "" ||
      if EmitAt(afterWord, s) then
        var n := EmitLength(s);
        if '\n' in s[..n] then MultiIsFirst(false, s[n..])
        else NoneLeavesLine(false, s[n..]) && MultiIsFirst(false, FromLineEnd(s[n..]))
      else MultiIsFirst(IsWordChar(s[0]), s[1..])
  }

  // ----- Reading the pieces -----

  lemma PlainSuffix(s: string, n: nat)
    requires PlainText(s) && n <= |s|
    ensures PlainText(s[n..])
  {
    forall i | 0 <= i < |s[n..]|
      ensures PlainAt(s[n..], i)
    {
      assert s[n..][i..] == s[n + i..] && PlainAt(s, n + i);
    }
  }

  lemma {:induction false} LineEndIsSuffix(s: string) returns (n: nat)
    ensures n <= |s| && FromLineEnd(s) == s[n..] && '\n' !in s[..n]
  {
    n := 0;
    if s != "" && s[0] != '\n' {
      n := LineEndIsSuffix(s[1..]);
      assert s[1..][n..] == s[n + 1..] && s[..n + 1] == [s[0]] + s[1..][..n];
      n := n + 1;
    }
  }

  lemma {:induction false} LineIsSkipped(t: string, rest: string)
    requires '\n' !in t
    ensures FromLineEnd(t + rest) == FromLineEnd(rest)
  {
    if t == "" {
      assert t + rest == rest;
    } else {
      assert (t + rest)[1..] == t[1..] + rest;
      LineIsSkipped(t[1..], rest);
    }
  }

  /** A text in which no comment ends, and that ends with another character than a star. */
  predicate Endless(t: string) {
    (forall i :: 0 <= i < |t| && t[i] == '*' ==> i + 1 < |t| && t[i + 1] != '/')
  }

  lemma {:induction false} BlockIsSkipped(t: string, rest: string)
    requires Endless(t)
    ensures BehindBlock(t + ("*/" + rest)) == rest
  {
    var s := t + ("*/" + rest);
    if t == "" {
      assert s == "*/" + rest && s[2..] == rest;
    } else {
      assert s[1..] == t[1..] + ("*/" + rest) && s[0] == t[0];
      BlockIsSkipped(t[1..], rest);
      assert |t| > 1 ==> s[1] == t[1];
    }
  }

  lemma NoEndAt(s: string, i: nat)
    requires PlainText(s) && i + 1 < |s|
    ensures !(s[i] == '*' && s[i + 1] == '/')
  {
    assert PlainAt(s, i);
    assert s[i..][0] == s[i] && s[i..][1] == s[i + 1];
  }

  lemma PlainIsEndless(e: string)
    requires PlainText(e) && e != "" && e[|e| - 1] == ';'
    ensures Endless(" " + (e + " "))
  {
    var t := " " + (e + " ");
    forall i | 0 <= i < |t| && t[i] == '*'
      ensures i + 1 < |t| && t[i + 1] != '/'
    {
      assert t[i] == e[i - 1] && i - 1 < |e| - 1;
      NoEndAt(e, i - 1);
      assert t[i + 1] == e[i];
    }
  }

  lemma CommentRead(t: string, rest: string)
    requires Endless(t)
    ensures Uncommented("/*" + (t + ("*/" + rest))) == " " + Uncommented(rest)
  {
    var s := "/*" + (t + ("*/" + rest));
    assert s[0] == '/' && s[1] == '*' && s[2..] == t + ("*/" + rest);
    BlockIsSkipped(t, rest);
  }

  lemma SpaceRead(rest: string)
    ensures Uncommented(" " + rest) == " " + Uncommented(rest)
  {
    assert (" " + rest)[0] == ' ' && (" " + rest)[1..] == rest;
  }

  lemma LineCommentRead(t: string, rest: string)
    requires '\n' !in t
    ensures Uncommented("//" + (t + rest)) == " " + Uncommented(FromLineEnd(rest))
  {
    var s := "//" + (t + rest);
    assert s[0] == '/' && s[1] == '/' && s[1..] == ("/" + t) + rest;
    LineIsSkipped("/" + t, rest);
  }

  lemma MarkerIsEndless()
    ensures Endless(" EmitMunger ")
  {
  }

  lemma MultiPieces(e: string, rest: string)
    ensures MULTI + e + CLOSE + rest
         == "/*" + (" EmitMunger " + ("*/" + (" " + ("/*" + ((" " + (e + " ")) + ("*/" + rest))))))
  {
    assert MULTI == "/*" + " EmitMunger " + "*/" + " " + "/*" + " " && CLOSE == " " + "*/";
  }

  lemma SinglePieces(e: string, rest: string)
    ensures SINGLE + e + rest == "/*" + (" EmitMunger " + ("*/" + (" " + ("//" + ((" " + e) + rest)))))
  {
    assert SINGLE == "/*" + " EmitMunger " + "*/" + " " + "//" + " ";
  }

  lemma ThreeSpaces(t: string)
    ensures " " + (" " + (" " + t)) == "   " + t
  {
  }

  lemma MultiRead(e: string, rest: string)
    requires PlainText(e) && e != "" && e[|e| - 1] == ';'
    ensures Uncommented(MULTI + e + CLOSE + rest) == "   " + Uncommented(rest)
  {
    var tail := "/*" + ((" " + (e + " ")) + ("*/" + rest));
    MultiPieces(e, rest);
    MarkerIsEndless();
    CommentRead(" EmitMunger ", " " + tail);
    SpaceRead(tail);
    PlainIsEndless(e);
    CommentRead(" " + (e + " "), rest);
    ThreeSpaces(Uncommented(rest));
  }

  lemma SingleRead(e: string, rest: string)
    requires '\n' !in e
    ensures Uncommented(SINGLE + e + rest) == "   " + Uncommented(FromLineEnd(rest))
  {
    var tail := "//" + ((" " + e) + rest);
    SinglePieces(e, rest);
    MarkerIsEndless();
    CommentRead(" EmitMunger ", " " + tail);
    SpaceRead(tail);
    LineCommentRead(" " + e, rest);
    ThreeSpaces(Uncommented(FromLineEnd(rest)));
  }

  // ----- Reading what was munged -----

  lemma FirstStays(line: string, s: string)
    requires s != "" && !EmitAt(LastIsWord(line), s)
    ensures Munged(line, s) != "" && Munged(line, s)[0] == s[0]
  {
  }

  lemma PlainFirst(s: string)
    requires PlainText(s) && |s| >= 2 && s[0] == '/'
    ensures s[1] != '/' && s[1] != '*' && !("emit" <= s[1..])
  {
    assert PlainAt(s, 0) && s[0..] == s;
    if "emit" <= s[1..] {
      SlashEmit(s);
    }
  }

  lemma SlashEmit(s: string)
    requires s != "" && s[0] == '/' && "emit" <= s[1..]
    ensures "/emit" <= s
  {
    assert s == [s[0]] + s[1..] && "/emit" == "/" + "emit";
  }

  /** A slash of the input starts no comment. */
  lemma NoCommentStarts(line: string, s: string)
    requires s != "" && PlainText(s) && !EmitAt(LastIsWord(line), s)
    ensures !("//" <= Munged(line, s)) && !("/*" <= Munged(line, s))
  {
    var next := ExtendLine(line, s[0]);
    MungedUnmarked(line, s);
    var o := Munged(line, s);
    assert o[0] == s[0] && o[1..] == Munged(next, s[1..]);
    if s[0] == '/' && |s| > 1 {
      PlainFirst(s);
      FirstStays(next, s[1..]);
      assert o[1] == s[1];
    }
  }

  lemma CharRead(line: string, s: string)
    requires s != "" && PlainText(s) && !EmitAt(LastIsWord(line), s)
    ensures Uncommented(Munged(line, s)) == [s[0]] + Uncommented(Munged(ExtendLine(line, s[0]), s[1..]))
  {
    NoCommentStarts(line, s);
    MungedUnmarked(line, s);
    assert Munged(line, s)[1..] == Munged(ExtendLine(line, s[0]), s[1..]);
  }

  lemma StatementShape(line: string, s: string)
    requires EmitAt(LastIsWord(line), s)
    ensures var e := s[..EmitLength(s)];
      && e != "" && e[|e| - 1] == ';' && s == e + s[EmitLength(s)..] && !LastIsWord(LineAfter(line, e))
  {
    EmitShape(s);
    LineEndsLike(line, s[..EmitLength(s)], ';');
  }

  lemma PlainPrefix(s: string, n: nat)
    requires PlainText(s) && n <= |s|
    ensures PlainText(s[..n])
  {
    forall i | 0 <= i < n
      ensures PlainAt(s[..n], i)
    {
      assert PlainAt(s, i) && s[..n][i..] == s[i..n] && s[i..] == s[i..n] + s[n..];
    }
  }

  lemma StatementRead(line: string, s: string)
    requires PlainText(s) && EmitAt(LastIsWord(line), s) && !Contains(line, MARK)
    ensures var n := EmitLength(s);
      var after := Munged(LineAfter(line, s[..n]), s[n..]);
      Uncommented(Munged(line, s)) == "   " + Uncommented(if '\n' in s[..n] then after else FromLineEnd(after))
  {
    var n := EmitLength(s);
    StatementShape(line, s);
    MungedEmit(line, s);
    PlainPrefix(s, n);
    var after := Munged(LineAfter(line, s[..n]), s[n..]);
    if '\n' in s[..n] {
      MultiRead(s[..n], after);
    } else {
      SingleRead(s[..n], after);
    }
  }

  lemma BreakForgetsLine(line: string, s: string)
    requires s == "" || s[0] == '\n'
    ensures Munged(line, s) == Munged("", s)
  {
    assert "emit"[0] == 'e';
  }

  lemma MarkedHasNoBreak(line: string, e: string, rest: string)
    requires '\n' !in e
    ensures FromLineEnd(Marked(line, e) + rest) == FromLineEnd(rest)
  {
    LineIsSkipped(Marked(line, e), rest);
  }

  /** Where no statement leaves the line, munging goes on at the line break as from the start of a line. */
  lemma {:induction false} LineEndOfMunged(line: string, s: string)
    requires NoneLeavesLine(LastIsWord(line), s)
    ensures FromLineEnd(Munged(line, s)) == Munged("", FromLineEnd(s))
    decreases |s|
  {
    if s == "" || s[0] == '\n' {
      BreakForgetsLine(line, s);
      assert s != "" ==> Munged("", s)[0] == '\n';
    } else if EmitAt(LastIsWord(line), s) {
      var n := EmitLength(s);
      StatementShape(line, s);
      MungedEmit(line, s);
      LineEndOfMunged(LineAfter(line, s[..n]), s[n..]);
      MarkedHasNoBreak(line, s[..n], Munged(LineAfter(line, s[..n]), s[n..]));
      LineIsSkipped(s[..n], s[n..]);
    } else {
      MungedUnmarked(line, s);
      LastIsWordAfter(line, s[0]);
      LineEndOfMunged(ExtendLine(line, s[0]), s[1..]);
      assert Munged(line, s)[1..] == Munged(ExtendLine(line, s[0]), s[1..]);
    }
  }

  /** A text that munging may come to: plain, and without a marker on the current line. */
  predicate Fresh(line: string, s: string) {
    PlainText(s) && !Contains(line + s, MARK)
  }

  lemma FreshChar(line: string, s: string)
    requires s != "" && Fresh(line, s)
    ensures Fresh(ExtendLine(line, s[0]), s[1..]) && !Contains(line, MARK)
  {
    PlainSuffix(s, 1);
    LineHasNoMark(line, s);
    LineRestHasNoMark(line, s);
  }

  lemma FreshStatement(line: string, s: string)
    requires Fresh(line, s) && EmitAt(LastIsWord(line), s)
    ensures var n := EmitLength(s); Fresh(LineAfter(line, s[..n]), s[n..])
  {
    var n := EmitLength(s);
    PlainSuffix(s, n);
    assert s == s[..n] + s[n..];
    LineAfterHasNoMark(line, s[..n], s[n..]);
  }

  lemma FreshLine(line: string, s: string)
    requires Fresh(line, s)
    ensures Fresh("", FromLineEnd(s))
  {
    var n := LineEndIsSuffix(s);
    PlainSuffix(s, n);
    assert s == s[..n] + s[n..];
    LineAfterHasNoMark(line, s[..n], s[n..]);
    LineHasNoMark(LineAfter(line, s[..n]), s[n..]);
    assert "" + s[n..] == s[n..];
  }

  /** Outside comments, the output is the input with its statements blanked. */
  lemma {:induction false} MungedReads(line: string, s: string)
    requires Fresh(line, s) && MultiIsFirst(LastIsWord(line), s)
    ensures Uncommented(Munged(line, s)) == Blanked(LastIsWord(line), s)
    decreases |s|
  {
    if s != "" {
      FreshChar(line, s);
      if EmitAt(LastIsWord(line), s) {
        var n := EmitLength(s);
        StatementShape(line, s);
        StatementRead(line, s);
        FreshStatement(line, s);
        if '\n' in s[..n] {
          MungedReads(LineAfter(line, s[..n]), s[n..]);
        } else {
          LineEndOfMunged(LineAfter(line, s[..n]), s[n..]);
          FreshLine(LineAfter(line, s[..n]), s[n..]);
          MungedReads("", FromLineEnd(s[n..]));
        }
      } else {
        CharRead(line, s);
        LastIsWordAfter(line, s[0]);
        MungedReads(ExtendLine(line, s[0]), s[1..]);
      }
    }
  }

  // ----- No statement is left -----

  lemma BlankedChar(afterWord: bool, s: string)
    requires s != "" && !EmitAt(afterWord, s)
    ensures Blanked(afterWord, s) == [s[0]] + Blanked(IsWordChar(s[0]), s[1..])
  {
  }

  lemma BlankedFirst(afterWord: bool, s: string)
    requires Blanked(afterWord, s) != "" && Blanked(afterWord, s)[0] != ' '
    ensures s != "" && !EmitAt(afterWord, s)
  {
  }

  /** A word of the blanked text was one of the input. */
  lemma {:induction false} SameWord(afterWord: bool, s: string, p: string)
    requires p <= Blanked(afterWord, s) && ' ' !in p && forall i :: 0 <= i < |p| ==> IsWordChar(p[i])
    ensures p <= s && Blanked(afterWord, s) == p + Blanked(if p == "" then afterWord else true, s[|p|..])
    decreases |p|
  {
    if p != "" {
      BlankedFirst(afterWord, s);
      BlankedChar(afterWord, s);
      PrefixTail(p, s[0], Blanked(IsWordChar(s[0]), s[1..]));
      SameWord(IsWordChar(s[0]), s[1..], p[1..]);
      assert s[1..][|p| - 1..] == s[|p|..];
      Associative([p[0]], p[1..], Blanked(true, s[|p|..]));
    }
  }

  lemma {:induction false} LaterSemicolon(afterWord: bool, s: string)
    ensures ';' in Blanked(afterWord, s) ==> ';' in s
    decreases |s|
  {
    if s != "" {
      if EmitAt(afterWord, s) {
        EmitShape(s);
        var n := EmitLength(s);
        assert s[n - 1] == s[..n][n - 1];
      } else {
        LaterSemicolon(IsWordChar(s[0]), s[1..]);
      }
    }
  }

  lemma SemicolonStays(afterWord: bool, s: string)
    requires s != "" && s[0] == ';'
    ensures Blanked(afterWord, s) != "" && Blanked(afterWord, s)[0] == ';'
  {
    assert "emit"[0] == 'e';
  }

  lemma BlankedTwo(s: string)
    requires |Blanked(true, s)| >= 2 && IsSpace(Blanked(true, s)[0]) && Blanked(true, s)[1] != ';' && ';' in Blanked(true, s)[1..]
    ensures |s| >= 2 && IsSpace(s[0]) && s[1] != ';' && ';' in s[1..]
  {
    var o := Blanked(IsWordChar(s[0]), s[1..]);
    BlankedChar(true, s);
    assert Blanked(true, s)[1..] == o;
    LaterSemicolon(IsWordChar(s[0]), s[1..]);
    if s[1] == ';' {
      SemicolonStays(IsWordChar(s[0]), s[1..]);
    }
  }

  /** Where no statement starts in the input, none starts in the blanked text. */
  lemma NoneStartsBlanked(afterWord: bool, s: string)
    requires s != "" && !EmitAt(afterWord, s)
    ensures !EmitAt(afterWord, Blanked(afterWord, s))
  {
    var o := Blanked(afterWord, s);
    if EmitAt(afterWord, o) {
      EmitIsWord();
      SameWord(afterWord, s, "emit");
      var t := Blanked(true, s[4..]);
      assert o[4..] == t && o[5..] == t[1..] && t[0] == o[4] && t[1] == o[5];
      BlankedTwo(s[4..]);
      TailMakesEmit(afterWord, s);
    }
  }

  lemma TailMakesEmit(afterWord: bool, s: string)
    requires !afterWord && "emit" <= s && |s[4..]| >= 2 && IsSpace(s[4..][0]) && s[4..][1] != ';' && ';' in s[4..][1..]
    ensures EmitAt(afterWord, s)
  {
    assert s[4..][1..] == s[5..] && s[4..][0] == s[4] && s[4..][1] == s[5];
  }

  lemma EmitIsWord()
    ensures ' ' !in "emit" && forall i :: 0 <= i < |"emit"| ==> IsWordChar("emit"[i])
  {
  }

  lemma NoEmitAtSpace(afterWord: bool, t: string)
    ensures Emits(afterWord, " " + t) == Emits(false, t)
  {
    assert (" " + t)[0] == ' ' && (" " + t)[1..] == t && "emit"[0] == 'e';
  }

  lemma NoEmitInSpaces(t: string)
    ensures Emits(false, "   " + t) == Emits(false, t)
  {
    ThreeSpaces(t);
    NoEmitAtSpace(false, " " + (" " + t));
    NoEmitAtSpace(false, " " + t);
    NoEmitAtSpace(false, t);
  }

  lemma NotWordBefore(afterWord: bool, s: string)
    requires EmitAt(afterWord, s)
    ensures !afterWord
  {
  }

  lemma {:induction false} NoneIsLeft(afterWord: bool, s: string)
    ensures Emits(afterWord, Blanked(afterWord, s)) == []
    decreases |s|
  {
    if s != "" {
      if EmitAt(afterWord, s) {
        var n := EmitLength(s);
        var rest := if '\n' in s[..n] then s[n..] else FromLineEnd(s[n..]);
        NotWordBefore(afterWord, s);
        NoneIsLeft(false, rest);
        NoEmitInSpaces(Blanked(false, rest));
      } else {
        NoneStartsBlanked(afterWord, s);
        NoneIsLeft(IsWordChar(s[0]), s[1..]);
        BlankedChar(afterWord, s);
        assert Blanked(afterWord, s)[1..] == Blanked(IsWordChar(s[0]), s[1..]);
        assert s[0] == '\n' ==> !IsWordChar(s[0]);
      }
    }
  }

  /**
   * A munged contract, read without comments: the statements are gone, and so is the rest of the line
   * behind a statement on one line. No emit statement is left.
   */
  lemma MungedContractReads(content: string)
    requires PlainText(content) && MultiIsFirst(false, content)
    ensures Uncommented(Munge(content)) == Blanked(false, content)
    ensures Emits(false, Uncommented(Munge(content))) == []
  {
    PlainHasNoMark(content);
    MungedReads("", content);
    NoneIsLeft(false, content);
  }

  lemma PlainHasNoMark(content: string)
    requires PlainText(content)
    ensures Fresh("", content)
  {
    assert "" + content == content;
    if i: nat :| i <= |content| && MARK <= content[i..] {
      MarkIsNotPlain(content, i);
    }
  }

  lemma MarkIsNotPlain(content: string, i: nat)
    requires i <= |content| && MARK <= content[i..]
    ensures !PlainText(content)
  {
    assert content[i..][0] == MARK[0] && content[i..][1] == MARK[1];
    assert "/*" <= content[i..] && !PlainAt(content, i);
  }

  // ----- Only statements are commented out -----

  lemma {:induction false} SingleEndsMeansOnly(afterWord: bool, s: string)
    requires SingleEndsLine(afterWord, s)
    ensures MultiIsFirst(afterWord, s) && Blanked(afterWord, s) == OnlyEmitsBlanked(afterWord, s)
    decreases |s|
  {
    if s != "" {
      if EmitAt(afterWord, s) {
        var n := EmitLength(s);
        SingleEndsMeansOnly(false, s[n..]);
        if '\n' !in s[..n] {
          assert s[n..] != "" ==> s[n..][0] == s[n];
          assert FromLineEnd(s[n..]) == s[n..];
        }
      } else {
        SingleEndsMeansOnly(IsWordChar(s[0]), s[1..]);
      }
    }
  }

  lemma StartsOtherwise(s: string, t: string)
    requires t != "" && t[0] != '\n' && (s == "" || s[0] == '\n')
    ensures "   " + s != "   " + t
  {
    assert ("   " + s)[3..] == s && ("   " + t)[3..] == t;
  }

  lemma BreakIsRead(s: string)
    requires s == "" || s[0] == '\n'
    ensures Uncommented(s) == "" || Uncommented(s)[0] == '\n'
  {
  }

  lemma OnlyStartsAsInput(afterWord: bool, s: string)
    requires s != "" && s[0] != '\n'
    ensures OnlyEmitsBlanked(afterWord, s) != "" && OnlyEmitsBlanked(afterWord, s)[0] != '\n'
  {
  }

  lemma SameBehindSpaces(a: string, b: string)
    ensures "   " + a == "   " + b <==> a == b
  {
    assert ("   " + a)[3..] == a && ("   " + b)[3..] == b;
  }

  lemma SameBehindChar(c: char, a: string, b: string)
    ensures [c] + a == [c] + b <==> a == b
  {
    assert ([c] + a)[1..] == a && ([c] + b)[1..] == b;
  }

  lemma MoreThanStatement(line: string, s: string)
    requires Fresh(line, s) && EmitAt(LastIsWord(line), s)
    requires var n := EmitLength(s); '\n' !in s[..n] && n < |s| && s[n] != '\n'
    ensures Uncommented(Munged(line, s)) != OnlyEmitsBlanked(LastIsWord(line), s)
  {
    var n := EmitLength(s);
    FreshChar(line, s);
    StatementRead(line, s);
    var end := FromLineEnd(Munged(LineAfter(line, s[..n]), s[n..]));
    BreakIsRead(end);
    assert s[n..][0] == s[n];
    OnlyStartsAsInput(false, s[n..]);
    StartsOtherwise(Uncommented(end), OnlyEmitsBlanked(false, s[n..]));
  }

  lemma {:induction false} OnlyMeansSingleEnds(line: string, s: string)
    requires Fresh(line, s) && Uncommented(Munged(line, s)) == OnlyEmitsBlanked(LastIsWord(line), s)
    ensures SingleEndsLine(LastIsWord(line), s)
    decreases |s|
  {
    if s != "" {
      FreshChar(line, s);
      if EmitAt(LastIsWord(line), s) {
        var n := EmitLength(s);
        StatementShape(line, s);
        if '\n' !in s[..n] && n < |s| && s[n] != '\n' {
          MoreThanStatement(line, s);
        } else {
          StatementGoesOn(line, s);
          FreshStatement(line, s);
          OnlyMeansSingleEnds(LineAfter(line, s[..n]), s[n..]);
        }
      } else {
        CharRead(line, s);
        LastIsWordAfter(line, s[0]);
        SameBehindChar(s[0], Uncommented(Munged(ExtendLine(line, s[0]), s[1..])), OnlyEmitsBlanked(IsWordChar(s[0]), s[1..]));
        OnlyMeansSingleEnds(ExtendLine(line, s[0]), s[1..]);
      }
    }
  }

  /** Behind a statement with line breaks, or at the end of the line, reading goes on where munging does. */
  lemma StatementGoesOn(line: string, s: string)
    requires Fresh(line, s) && EmitAt(LastIsWord(line), s)
    requires var n := EmitLength(s); '\n' in s[..n] || n == |s| || s[n] == '\n'
    ensures var n := EmitLength(s);
      Uncommented(Munged(line, s)) == "   " + Uncommented(Munged(LineAfter(line, s[..n]), s[n..]))
    ensures var n := EmitLength(s);
      Uncommented(Munged(line, s)) == OnlyEmitsBlanked(LastIsWord(line), s)
      <==> Uncommented(Munged(LineAfter(line, s[..n]), s[n..])) == OnlyEmitsBlanked(false, s[n..])
  {
    var n := EmitLength(s);
    var after := Munged(LineAfter(line, s[..n]), s[n..]);
    FreshChar(line, s);
    StatementRead(line, s);
    if '\n' !in s[..n] {
      assert s[n..] != "" ==> s[n..][0] == s[n];
      BreakForgetsLine(LineAfter(line, s[..n]), s[n..]);
      assert "emit"[0] == 'e';
      assert FromLineEnd(after) == after;
    }
    SameBehindSpaces(Uncommented(after), OnlyEmitsBlanked(false, s[n..]));
  }

  /**
   * Munging comments out the emit statements and nothing else, if and only if every statement that is
   * on one line ends its line.
   */
  lemma OnlyEmitsIffSingleEndsLine(content: string)
    requires PlainText(content)
    ensures Uncommented(Munge(content)) == OnlyEmitsBlanked(false, content) <==> SingleEndsLine(false, content)
  {
    PlainHasNoMark(content);
    if SingleEndsLine(false, content) {
      SingleEndsMeansOnly(false, content);
      MungedReads("", content);
    }
    if Uncommented(Munge(content)) == OnlyEmitsBlanked(false, content) {
      OnlyMeansSingleEnds("", content);
    }
  }

  // ----- A statement behind another one -----

  lemma {:induction false} PlainIsRead(s: string)
    requires PlainText(s)
    ensures Uncommented(s) == s
  {
    if s != "" {
      PlainSuffix(s, 1);
      PlainIsRead(s[1..]);
      assert PlainAt(s, 0) && s[0..] == s;
    }
  }

  lemma PlainCharIsRead(s: string, rest: string)
    requires PlainText(s) && s != "" && s[|s| - 1] != '/'
    ensures Uncommented(s + rest) == [s[0]] + Uncommented(s[1..] + rest)
  {
    var t := s + rest;
    assert t[0] == s[0] && t[1..] == s[1..] + rest;
    if |s| > 1 {
      NoCommentInside(s);
      assert t[1] == s[1];
    }
  }

  lemma {:induction false} PlainFrontIsRead(s: string, rest: string)
    requires PlainText(s) && (s != "" ==> s[|s| - 1] != '/')
    ensures Uncommented(s + rest) == s + Uncommented(rest)
  {
    if s == "" {
      assert s + rest == rest;
    } else {
      PlainSuffix(s, 1);
      PlainCharIsRead(s, rest);
      PlainFrontIsRead(s[1..], rest);
      Associative([s[0]], s[1..], Uncommented(rest));
    }
  }

  lemma NoCommentInside(s: string)
    requires PlainText(s) && |s| > 1
    ensures !(s[0] == '/' && (s[1] == '/' || s[1] == '*'))
  {
    assert PlainAt(s, 0) && s[0..] == s;
  }

  /** A whole statement: nothing before or behind it. */
  predicate IsStatement(e: string) {
    EmitAt(false, e) && EmitLength(e) == |e|
  }

  lemma StatementInFront(e: string, rest: string)
    requires IsStatement(e)
    ensures e != "" && Emits(false, e + rest) == [e] + Emits(false, rest)
  {
    EmitIsLocal(e, rest);
  }

  lemma StatementIsMunged(line: string, e: string, rest: string)
    requires IsStatement(e) && !LastIsWord(line)
    ensures Munged(line, e + rest) == Marked(line, e) + Munged(LineAfter(line, e), rest)
  {
    EmitIsLocal(e, rest);
    MungedEmit(line, e + rest);
  }

  lemma FirstStatement(e: string, rest: string)
    requires IsStatement(e) && '\n' !in e
    ensures Munge(e + rest) == SINGLE + e + Munged(e, rest)
  {
    EmptyHasNoMark();
    StatementIsMunged("", e, rest);
    LineWithoutNewline("", e);
    assert "" + e == e;
  }

  lemma LastStatement(line: string, e: string)
    requires IsStatement(e) && '\n' in e && !LastIsWord(line) && !Contains(line, MARK)
    ensures Munged(line, e) == MULTI + e + CLOSE
  {
    StatementIsMunged(line, e, "");
    assert e + "" == e && Marked(line, e) + "" == Marked(line, e);
  }

  lemma TwoStatements(e: string, e': string)
    requires IsStatement(e) && IsStatement(e') && '\n' !in e && '\n' in e' && !Contains(e, MARK)
    ensures Munge(e + e') == SINGLE + e + (MULTI + e' + CLOSE)
  {
    FirstStatement(e, e');
    EndsNoWord(e);
    LastStatement(e, e');
  }

  lemma EndsNoWord(e: string)
    requires IsStatement(e)
    ensures !LastIsWord(e)
  {
    EmitShape(e);
    assert e[..|e|] == e;
  }

  lemma EmptyHasNoMark()
    ensures !Contains("", MARK)
  {
  }

  lemma OrphanLines(head: string, tail: string)
    requires '\n' !in head
    ensures FromLineEnd(MULTI + (head + "\n" + tail) + CLOSE) == "\n" + (tail + CLOSE)
  {
    assert MULTI + (head + "\n" + tail) + CLOSE == (MULTI + head) + ("\n" + (tail + CLOSE));
    LineIsSkipped(MULTI + head, "\n" + (tail + CLOSE));
  }

  lemma OrphanIsRead(tail: string)
    requires PlainText(tail) && IsStatement(tail)
    ensures Uncommented("\n" + (tail + CLOSE)) == "\n" + (tail + CLOSE)
  {
    EmitShape(tail);
    PlainFrontIsRead(tail, CLOSE);
    assert CLOSE[0] == ' ' && CLOSE[1] == '*' && CLOSE[2] == '/' && |CLOSE| == 3;
    assert CLOSE[1..][0] == '*' && CLOSE[1..][1..] == "/" && "/"[1..] == "";
    assert Uncommented("/") == "/";
    assert CLOSE == [' '] + (['*'] + "/");
    var s := "\n" + (tail + CLOSE);
    assert s[0] == '\n' && s[1..] == tail + CLOSE;
  }

  /**
   * For example, a statement with line breaks behind another one on its line: the line comment hides
   * the start of its comment, and an emit on its later lines is left.
   */
  lemma LaterLinesAreLeft(e: string, head: string, tail: string)
    requires IsStatement(e) && '\n' !in e && PlainText(e)
    requires IsStatement(head + "\n" + tail) && '\n' !in head && IsStatement(tail) && PlainText(tail)
    ensures tail in Emits(false, Uncommented(Munge(e + (head + "\n" + tail))))
  {
    PlainHasNoMark(e);
    assert "" + e == e;
    assert (head + "\n" + tail)[|head|] == '\n';
    TwoStatements(e, head + "\n" + tail);
    SingleRead(e, MULTI + (head + "\n" + tail) + CLOSE);
    OrphanLines(head, tail);
    OrphanIsRead(tail);
    NoEmitInSpaces("\n" + (tail + CLOSE));
    BreakIsNoEmit(tail + CLOSE);
    StatementInFront(tail, CLOSE);
  }

  lemma BreakIsNoEmit(t: string)
    ensures Emits(false, "\n" + t) == Emits(false, t)
  {
    assert ("\n" + t)[0] == '\n' && ("\n" + t)[1..] == t && "emit"[0] == 'e';
  }
}
