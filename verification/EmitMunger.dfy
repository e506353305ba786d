/**
 * Commenting out emit statements: markers are inserted before (and after) each statement, from the
 * last one to the first, so that a second pass finds nothing left to do.
 */
module EmitMunger {
  import opened Text

  const MARK := "/* EmitMunger */"
  const SINGLE := "/* EmitMunger */ // "
  const MULTI := "/* EmitMunger */ /* "
  const CLOSE := " */"

  // ----- Emit statements -----

  /** The length of `s` up to and including its first semicolon. */
  function ToSemicolon(s: string): (n: nat)
    requires ';' in s
    ensures 0 < n <= |s| && s[n - 1] == ';' && ';' !in s[..n - 1]
  {
    if s[0] == ';' then 1 else 1 + ToSemicolon(s[1..])
  }

  /** The regex `\bemit\s+[^;]+;` matches at the start of `s`. */
  predicate EmitAt(afterWord: bool, s: string) {
    !afterWord && "emit" <= s && |s| > 5 && IsSpace(s[4]) && s[5] != ';' && ';' in s[5..]
  }

  function EmitLength(s: string): (n: nat)
    requires EmitAt(false, s)
    ensures 6 < n <= |s|
  {
    5 + ToSemicolon(s[5..])
  }

  // ----- The current line -----

  function ExtendLine(line: string, c: char): string {
    if c == '\n' then "" else line + [c]
  }

  /** The text of the current line after reading `t`. */
  function LineAfter(line: string, t: string): string
    decreases |t|
  {
    if t == "" then line else LineAfter(ExtendLine(line, t[0]), t[1..])
  }

  predicate LastIsWord(line: string) {
    line != "" && IsWordChar(line[|line| - 1])
  }

  function Marked(line: string, emit: string): string {
    if Contains(line, MARK) then emit
    else if '\n' in emit then MULTI + emit + CLOSE
    else SINGLE + emit
  }

  /** The munged form of `s`, which follows `line` on the current line. */
  function Munged(line: string, s: string): string
    decreases |s|
  {
    if s == "" then ""
    else if EmitAt(LastIsWord(line), s) then
      var emit, rest := s[..EmitLength(s)], s[EmitLength(s)..];
      Marked(line, emit) + Munged(LineAfter(line, emit), rest)
    else [s[0]] + Munged(ExtendLine(line, s[0]), s[1..])
  }

  /** The texts of the emit statements in `s`. */
  function Emits(afterWord: bool, s: string): seq<string>
    decreases |s|
  {
    if s == "" then []
    else if EmitAt(afterWord, s) then [s[..EmitLength(s)]] + Emits(false, s[EmitLength(s)..])
    else Emits(s[0] != '\n' && IsWordChar(s[0]), s[1..])
  }

  // ----- What inserting does not change -----

  lemma {:induction false} LineAfterConcat(line: string, a: string, b: string)
    ensures LineAfter(line, a + b) == LineAfter(LineAfter(line, a), b)
    decreases |a|
  {
    if a == "" {
      assert a + b == b;
    } else {
      assert (a + b)[1..] == a[1..] + b;
      LineAfterConcat(ExtendLine(line, a[0]), a[1..], b);
    }
  }

  lemma {:induction false} LineWithoutNewline(line: string, t: string)
    requires '\n' !in t
    ensures LineAfter(line, t) == line + t
    decreases |t|
  {
    if t == "" {
      assert line + t == line;
    } else {
      LineWithoutNewline(line + [t[0]], t[1..]);
      assert line + t == line + [t[0]] + t[1..];
    }
  }

  lemma {:induction false} LineAfterNewline(line: string, line': string, t: string)
    requires '\n' in t
    ensures LineAfter(line, t) == LineAfter(line', t)
    decreases |t|
  {
    if t[0] != '\n' {
      LineAfterNewline(line + [t[0]], line' + [t[0]], t[1..]);
    }
  }

  lemma {:induction false} LineEndsLike(line: string, t: string, c: char)
    requires t != "" && t[|t| - 1] == c && c != '\n'
    ensures LineAfter(line, t) != "" && LineAfter(line, t)[|LineAfter(line, t)| - 1] == c
    decreases |t|
  {
    if |t| > 1 {
      LineEndsLike(ExtendLine(line, t[0]), t[1..], c);
    } else {
      assert LineAfter(line, t) == LineAfter(line + [c], "");
    }
  }

  /** The emit statement at the start of `s` ends with its only semicolon. */
  lemma EmitShape(s: string)
    requires EmitAt(false, s)
    ensures var e := s[..EmitLength(s)];
      e[|e| - 1] == ';' && ';' !in e[..|e| - 1] && e[0] == 'e' && EmitAt(false, e) && EmitLength(e) == |e|
  {
    var n := EmitLength(s);
    var e := s[..n];
    assert s[5..][..n - 5] == e[5..];
    assert s[0] == "emit"[0] && s[1] == "emit"[1] && s[2] == "emit"[2] && s[3] == "emit"[3];
    assert e[..5] == s[..5] && ';' !in e[..5];
    assert e[..n - 1] == e[..5] + e[5..][..n - 6];
    assert e[5..][..n - 6] == s[5..][..n - 6];
    assert e[n - 1] in e[5..] by { assert e[5..][n - 6] == e[n - 1]; }
    FirstSemicolon(e[5..], n - 5);
  }

  lemma {:induction false} FirstSemicolon(s: string, n: nat)
    requires 0 < n <= |s| && s[n - 1] == ';' && ';' !in s[..n - 1]
    ensures ';' in s && ToSemicolon(s) == n
  {
    if n > 1 {
      assert s[0] == s[..n - 1][0];
      assert s[1..][..n - 2] == s[..n - 1][1..];
      FirstSemicolon(s[1..], n - 1);
    }
  }

  /** An emit statement is recognized by itself, whatever follows it. */
  lemma EmitIsLocal(e: string, rest: string)
    requires EmitAt(false, e) && EmitLength(e) == |e|
    ensures EmitAt(false, e + rest) && EmitLength(e + rest) == |e|
    ensures (e + rest)[..|e|] == e && (e + rest)[|e|..] == rest
  {
    var s := e + rest;
    assert s[5..] == e[5..] + rest;
    assert s[5..][|e| - 6] == e[5..][|e| - 6] == ';';
    assert s[5..][..|e| - 6] == e[5..][..|e| - 6];
    FirstSemicolon(s[5..], |e| - 5);
  }

  lemma {:induction false} SemicolonsStay(line: string, s: string)
    ensures ';' in Munged(line, s) ==> ';' in s
    decreases |s|
  {
    if s != "" {
      if EmitAt(LastIsWord(line), s) {
        EmitShape(s);
        var n := EmitLength(s);
        assert s[n - 1] == s[..n][n - 1];
      } else {
        SemicolonsStay(ExtendLine(line, s[0]), s[1..]);
      }
    }
  }

  // ----- A line and its munged form -----

  /** What the second pass needs to know about the munged form `line'` of a line. */
  ghost predicate Tracks(line: string, line': string) {
    && LastIsWord(line) == LastIsWord(line')
    && (Contains(line, MARK) ==> Contains(line', MARK))
    && forall k :: 0 <= k <= |MARK| && EndsWith(line, MARK[..k]) ==> EndsWith(line', MARK[..k])
  }

  lemma EndsWithStep(line: string, c: char, k: nat)
    requires 0 < k <= |MARK|
    ensures EndsWith(line + [c], MARK[..k]) <==> c == MARK[k - 1] && EndsWith(line, MARK[..k - 1])
  {
    var m, l := MARK[..k], line + [c];
    assert m == MARK[..k - 1] + [MARK[k - 1]];
    if |m| <= |l| {
      assert l[|l| - k..] == line[|line| - (k - 1)..] + [c];
    }
  }

  lemma ContainsStep(line: string, c: char, t: string)
    requires Contains(line + [c], t)
    ensures Contains(line, t) || EndsWith(line + [c], t)
  {
    var l := line + [c];
    var i :| 0 <= i <= |l| && t <= l[i..];
    if i + |t| < |l| {
      assert l[i..] == line[i..] + [c];
      assert t == l[i..][..|t|] == line[i..][..|t|];
    } else {
      assert l[i..] == t;
    }
  }

  lemma EndsMeansContains(line: string)
    requires EndsWith(line, MARK)
    ensures Contains(line, MARK)
  {
    assert MARK <= line[|line| - |MARK|..];
  }

  lemma TracksChar(line: string, line': string, c: char)
    requires Tracks(line, line')
    ensures Tracks(ExtendLine(line, c), ExtendLine(line', c))
  {
    if c != '\n' {
      var l, l' := line + [c], line' + [c];
      forall k | 0 <= k <= |MARK| && EndsWith(l, MARK[..k])
        ensures EndsWith(l', MARK[..k])
      {
        if k > 0 {
          EndsWithStep(line, c, k);
          EndsWithStep(line', c, k);
        }
      }
      if Contains(l, MARK) {
        if Contains(line, MARK) {
          ContainsExtended(line', MARK, [c]);
        } else {
          ContainsStep(line, c, MARK);
          assert MARK[..|MARK|] == MARK;
          EndsMeansContains(l');
        }
      }
    }
  }

  lemma {:induction false} TracksText(line: string, line': string, t: string)
    requires Tracks(line, line')
    ensures Tracks(LineAfter(line, t), LineAfter(line', t))
    decreases |t|
  {
    if t != "" {
      TracksChar(line, line', t[0]);
      TracksText(ExtendLine(line, t[0]), ExtendLine(line', t[0]), t[1..]);
    }
  }

  lemma MarkLacks(c: char, k: nat)
    requires k < |MARK| && (c == ';' || c == '\n')
    ensures MARK[k] != c
  {
  }

  /** After an emit statement no marker is under way. */
  lemma TracksAfterSemicolon(line: string, line': string)
    requires line != "" && line[|line| - 1] == ';' && line' != "" && !IsWordChar(line'[|line'| - 1])
    requires Contains(line, MARK) ==> Contains(line', MARK)
    ensures Tracks(line, line')
  {
    forall k | 0 < k <= |MARK|
      ensures !EndsWith(line, MARK[..k])
    {
      MarkLacks(';', k - 1);
      var front := line[..|line| - 1];
      assert line == front + [';'];
      EndsWithStep(front, ';', k);
    }
  }

  /** A piece in which no emit can start. */
  predicate Inert(m: string) {
    forall i :: 0 <= i < |m| && m[i] == 'e' ==> i + 1 < |m| && m[i + 1] != 'm'
  }

  /** What is inserted before a statement: the marker, no line break, and no word at the end. */
  predicate IsMarker(m: string) {
    MARK <= m && '\n' !in m && Inert(m) && !LastIsWord(m)
  }

  /** What may be inserted after a statement. */
  predicate IsCloser(m: string) {
    '\n' !in m && Inert(m) && !LastIsWord(m)
  }

  lemma InsertedPieces()
    ensures IsMarker(SINGLE) && IsMarker(MULTI) && IsCloser(CLOSE) && IsCloser("")
  {
    assert SINGLE == MARK + " // " && MULTI == MARK + " /* ";
  }

  lemma LineAfterMulti(line: string, line': string, marker: string, emit: string, close: string)
    requires '\n' in emit && '\n' !in close
    ensures LineAfter(line', marker + emit + close) == LineAfter(line, emit) + close
  {
    LineAfterConcat(line', marker + emit, close);
    LineAfterConcat(line', marker, emit);
    LineAfterNewline(line, LineAfter(line', marker), emit);
    LineWithoutNewline(LineAfter(line, emit), close);
  }

  lemma TracksClosed(l: string, close: string)
    requires l != "" && l[|l| - 1] == ';' && IsCloser(close) && close != ""
    ensures Tracks(l, l + close)
  {
    ContainsExtended(l, MARK, close);
    EndsOtherThanWord(l, close);
    TracksAfterSemicolon(l, l + close);
  }

  lemma TracksMulti(line: string, line': string, marker: string, emit: string, close: string)
    requires emit != "" && emit[|emit| - 1] == ';' && '\n' in emit
    requires IsCloser(close) && close != ""
    ensures Tracks(LineAfter(line, emit), LineAfter(line', marker + emit + close))
  {
    LineEndsLike(line, emit, ';');
    LineAfterMulti(line, line', marker, emit, close);
    TracksClosed(LineAfter(line, emit), close);
  }

  lemma TracksSingle(line: string, line': string, marker: string, emit: string)
    requires emit != "" && emit[|emit| - 1] == ';' && '\n' !in emit && MARK <= marker && '\n' !in marker
    ensures Tracks(LineAfter(line, emit), LineAfter(line', marker + emit))
  {
    var t := marker + emit;
    LineWithoutNewline(line, emit);
    LineWithoutNewline(line', t);
    MarkedLineTracks(line, line', emit, t);
  }

  lemma MarkedLineTracks(line: string, line': string, emit: string, t: string)
    requires emit != "" && emit[|emit| - 1] == ';' && t != "" && t[|t| - 1] == ';' && MARK <= t
    ensures Tracks(line + emit, line' + t)
  {
    MarkerHoldsMark(line', t);
    assert (line + emit)[|line + emit| - 1] == ';' == (line' + t)[|line' + t| - 1];
    TracksAfterSemicolon(line + emit, line' + t);
  }

  lemma MarkerHoldsMark(line: string, marker: string)
    requires MARK <= marker
    ensures Contains(line + marker, MARK)
  {
    assert (line + marker)[|line|..] == marker;
  }

  /** A marked emit statement leaves its marker on the line, if the statement is on one line. */
  lemma TracksMarked(line: string, line': string, emit: string)
    requires Tracks(line, line') && emit != "" && emit[|emit| - 1] == ';'
    ensures Tracks(LineAfter(line, emit), LineAfter(line', Marked(line, emit)))
  {
    InsertedPieces();
    if Contains(line, MARK) {
      TracksText(line, line', emit);
    } else if '\n' in emit {
      TracksMulti(line, line', MULTI, emit, CLOSE);
    } else {
      TracksSingle(line, line', SINGLE, emit);
    }
  }

  // ----- The second pass -----

  lemma MungedUnmarked(line: string, s: string)
    requires s != "" && !EmitAt(LastIsWord(line), s)
    ensures Munged(line, s) == [s[0]] + Munged(ExtendLine(line, s[0]), s[1..])
  {
  }

  lemma PrefixTail(p: string, c: char, o: string)
    requires p != "" && p <= [c] + o
    ensures p[0] == c && p[1..] <= o && p == [c] + p[1..]
  {
    assert ([c] + o)[1..] == o;
  }

  /** Where the output starts with a word, and no emit starts, the input starts with the same word. */
  lemma {:induction false} SamePrefix(line: string, s: string, p: string)
    requires p <= Munged(line, s) && !EmitAt(LastIsWord(line), s)
    requires forall i :: 0 <= i < |p| - 1 ==> IsWordChar(p[i])
    ensures p <= s && Munged(line, s) == p + Munged(LineAfter(line, p), s[|p|..])
    decreases |p|
  {
    if p != "" {
      var line1, o1 := ExtendLine(line, s[0]), Munged(ExtendLine(line, s[0]), s[1..]);
      MungedUnmarked(line, s);
      PrefixTail(p, s[0], o1);
      if |p| > 1 {
        SamePrefix(line1, s[1..], p[1..]);
        assert s[1..][|p| - 1..] == s[|p|..];
        Associative([p[0]], p[1..], Munged(LineAfter(line1, p[1..]), s[|p|..]));
      } else {
        assert LineAfter(line, p) == LineAfter(line1, "");
      }
    }
  }

  /** Munging inserts no emit statement: where none starts, none starts afterwards. */
  lemma NoNewEmit(line: string, line': string, s: string)
    requires s != "" && LastIsWord(line) == LastIsWord(line') && !EmitAt(LastIsWord(line), s)
    ensures !EmitAt(LastIsWord(line'), Munged(line, s))
  {
    var o := Munged(line, s);
    if !LastIsWord(line) && "emit" <= o && |o| > 5 && IsSpace(o[4]) {
      assert o[..4] == "emit";
      assert forall i :: 0 <= i < 4 ==> o[..5][i] == "emit"[i];
      SamePrefix(line, s, o[..5]);
      var l5 := LineAfter(line, o[..5]);
      var tail := Munged(l5, s[5..]);
      assert o[5..] == tail && s[..5] == o[..5];
      SemicolonsStay(l5, s[5..]);
      assert "emit" <= s && s[4] == o[4];
      if |s| > 5 && s[5] == ';' {
        assert !EmitAt(LastIsWord(l5), s[5..]) by {
          assert s[5..][0] == s[5] != "emit"[0];
        }
        assert tail[0] == s[5];
      }
    }
  }

  lemma LastIsWordAfter(line: string, c: char)
    ensures LastIsWord(ExtendLine(line, c)) == (c != '\n' && IsWordChar(c))
  {
  }

  lemma NoEmitInInert(afterWord: bool, m: string, rest: string)
    requires m != "" && Inert(m)
    ensures !EmitAt(afterWord, m + rest)
  {
    var s := m + rest;
    assert s[0] == m[0];
    assert "emit"[0] == 'e' && "emit"[1] == 'm';
    if m[0] == 'e' {
      assert s[1] == m[1];
    }
  }

  /** Reading an inert piece passes it on unchanged. */
  lemma {:induction false} PassThrough(line: string, m: string, rest: string)
    requires Inert(m)
    ensures Munged(line, m + rest) == m + Munged(LineAfter(line, m), rest)
    decreases |m|
  {
    if m == "" {
      assert m + rest == rest;
    } else {
      NoEmitInInert(LastIsWord(line), m, rest);
      MungedUnmarked(line, m + rest);
      assert (m + rest)[0] == m[0] && (m + rest)[1..] == m[1..] + rest;
      PassThrough(ExtendLine(line, m[0]), m[1..], rest);
      assert m == [m[0]] + m[1..];
      Associative([m[0]], m[1..], Munged(LineAfter(line, m), rest));
    }
  }

  lemma {:induction false} PassEmits(afterWord: bool, m: string, rest: string)
    requires m != "" && Inert(m) && !IsWordChar(m[|m| - 1])
    ensures Emits(afterWord, m + rest) == Emits(false, rest)
    decreases |m|
  {
    NoEmitInInert(afterWord, m, rest);
    assert (m + rest)[0] == m[0] && (m + rest)[1..] == m[1..] + rest;
    if |m| > 1 {
      PassEmits(m[0] != '\n' && IsWordChar(m[0]), m[1..], rest);
    } else {
      assert m[1..] + rest == rest;
    }
  }

  predicate IsEmit(e: string) {
    EmitAt(false, e) && EmitLength(e) == |e|
  }

  /** An emit statement on a line that already holds the marker stays as it is. */
  lemma MarkedStays(line: string, e: string, rest: string)
    requires IsEmit(e) && !LastIsWord(line) && Contains(line, MARK)
    ensures Munged(line, e + rest) == e + Munged(LineAfter(line, e), rest)
    ensures Emits(false, e + rest) == [e] + Emits(false, rest)
  {
    EmitIsLocal(e, rest);
  }

  /** The marker, the statement and what closes it, read once more. */
  lemma MarkerAgain(line: string, marker: string, e: string, close: string, rest: string)
    requires IsEmit(e) && IsMarker(marker) && IsCloser(close)
    ensures Munged(line, marker + e + close + rest)
         == marker + e + close + Munged(LineAfter(line, marker + e + close), rest)
    ensures Emits(LastIsWord(line), marker + e + close + rest) == [e] + Emits(false, rest)
  {
    Associative(marker + e, close, rest);
    Associative(marker, e, close + rest);
    AfterMarker(line, marker);
    MarkedStays(line + marker, e, close + rest);
    MarkerText(line, marker, e, close, rest);
    MarkerEmits(LastIsWord(line), marker, e, close, rest);
  }

  lemma EndsOtherThanWord(line: string, marker: string)
    requires marker != "" && !LastIsWord(marker)
    ensures !LastIsWord(line + marker)
  {
    assert (line + marker)[|line + marker| - 1] == marker[|marker| - 1];
  }

  lemma MarkerIsNotEmpty(marker: string)
    requires MARK <= marker
    ensures marker != ""
  {
  }

  lemma AfterMarker(line: string, marker: string)
    requires IsMarker(marker)
    ensures LineAfter(line, marker) == line + marker && Contains(line + marker, MARK) && !LastIsWord(line + marker)
  {
    LineWithoutNewline(line, marker);
    MarkerHoldsMark(line, marker);
    MarkerIsNotEmpty(marker);
    EndsOtherThanWord(line, marker);
  }

  lemma MarkerEmits(afterWord: bool, marker: string, e: string, close: string, rest: string)
    requires IsMarker(marker) && IsCloser(close) && Emits(false, e + (close + rest)) == [e] + Emits(false, close + rest)
    ensures Emits(afterWord, marker + (e + (close + rest))) == [e] + Emits(false, rest)
  {
    PassEmits(afterWord, marker, e + (close + rest));
    if close == "" {
      assert close + rest == rest;
    } else {
      PassEmits(false, close, rest);
    }
  }

  lemma MarkerText(line: string, marker: string, e: string, close: string, rest: string)
    requires IsEmit(e) && IsMarker(marker) && IsCloser(close)
    requires Munged(LineAfter(line, marker), e + (close + rest))
          == e + Munged(LineAfter(LineAfter(line, marker), e), close + rest)
    ensures Munged(line, marker + (e + (close + rest)))
         == marker + e + close + Munged(LineAfter(line, marker + e + close), rest)
  {
    var line2 := LineAfter(LineAfter(line, marker), e);
    PassThrough(line, marker, e + (close + rest));
    PassThrough(line2, close, rest);
    LineAfterConcat(line, marker, e);
    LineAfterConcat(line, marker + e, close);
    var tail := Munged(LineAfter(line2, close), rest);
    Associative(marker + e, close, tail);
    Associative(marker, e, close + tail);
  }

  /** Reading a marked emit statement once more changes nothing and finds the statement. */
  lemma MarkedAgain(line: string, line': string, e: string, rest: string)
    requires Tracks(line, line') && !LastIsWord(line) && IsEmit(e)
    ensures Munged(line', Marked(line, e) + rest) == Marked(line, e) + Munged(LineAfter(line', Marked(line, e)), rest)
    ensures Emits(LastIsWord(line'), Marked(line, e) + rest) == [e] + Emits(false, rest)
  {
    InsertedPieces();
    if Contains(line, MARK) {
      MarkedStays(line', e, rest);
    } else if '\n' in e {
      MarkerAgain(line', MULTI, e, CLOSE, rest);
    } else {
      MarkerAgain(line', SINGLE, e, "", rest);
      assert SINGLE + e + "" == SINGLE + e;
    }
  }

  /** Munging munged text changes nothing, and the statements in it are those of the input. */
  lemma {:induction false} SecondPass(line: string, line': string, s: string)
    requires Tracks(line, line')
    ensures Munged(line', Munged(line, s)) == Munged(line, s)
    ensures Emits(LastIsWord(line'), Munged(line, s)) == Emits(LastIsWord(line), s)
    decreases |s|
  {
    if s != "" {
      if EmitAt(LastIsWord(line), s) {
        var n := EmitLength(s);
        EmitPassed(line, line', s, n);
        SecondPass(LineAfter(line, s[..n]), LineAfter(line', Marked(line, s[..n])), s[n..]);
        SecondPassEmit(line, line', s, n);
      } else {
        TracksChar(line, line', s[0]);
        SecondPass(ExtendLine(line, s[0]), ExtendLine(line', s[0]), s[1..]);
        SecondPassChar(line, line', s);
      }
    }
  }

  lemma EmitPassed(line: string, line': string, s: string, n: nat)
    requires Tracks(line, line') && EmitAt(LastIsWord(line), s) && n == EmitLength(s)
    ensures IsEmit(s[..n]) && !LastIsWord(LineAfter(line, s[..n]))
    ensures Tracks(LineAfter(line, s[..n]), LineAfter(line', Marked(line, s[..n])))
  {
    EmitShape(s);
    LineEndsLike(line, s[..n], ';');
    TracksMarked(line, line', s[..n]);
  }

  lemma SecondPassEmit(line: string, line': string, s: string, n: nat)
    requires Tracks(line, line') && EmitAt(LastIsWord(line), s) && n == EmitLength(s) && IsEmit(s[..n])
    requires !LastIsWord(LineAfter(line, s[..n]))
    requires Tracks(LineAfter(line, s[..n]), LineAfter(line', Marked(line, s[..n])))
    requires var next, next' := LineAfter(line, s[..n]), LineAfter(line', Marked(line, s[..n]));
      && Munged(next', Munged(next, s[n..])) == Munged(next, s[n..])
      && Emits(LastIsWord(next'), Munged(next, s[n..])) == Emits(LastIsWord(next), s[n..])
    ensures Munged(line', Munged(line, s)) == Munged(line, s)
    ensures Emits(LastIsWord(line'), Munged(line, s)) == Emits(LastIsWord(line), s)
  {
    MarkedAgain(line, line', s[..n], Munged(LineAfter(line, s[..n]), s[n..]));
  }

  lemma SecondPassChar(line: string, line': string, s: string)
    requires s != "" && LastIsWord(line) == LastIsWord(line') && !EmitAt(LastIsWord(line), s)
    requires var o1 := Munged(ExtendLine(line, s[0]), s[1..]);
      && Munged(ExtendLine(line', s[0]), o1) == o1
      && Emits(LastIsWord(ExtendLine(line', s[0])), o1) == Emits(LastIsWord(ExtendLine(line, s[0])), s[1..])
    ensures Munged(line', Munged(line, s)) == Munged(line, s)
    ensures Emits(LastIsWord(line'), Munged(line, s)) == Emits(LastIsWord(line), s)
  {
    var o, o1 := Munged(line, s), Munged(ExtendLine(line, s[0]), s[1..]);
    MungedUnmarked(line, s);
    NoNewEmit(line, line', s);
    MungedUnmarked(line', o);
    assert o[0] == s[0] && o[1..] == o1;
    LastIsWordAfter(line, s[0]);
    LastIsWordAfter(line', s[0]);
  }

  function Munge(content: string): string {
    Munged("", content)
  }

  /** Munging is idempotent, and finds the same emit statements before and after. */
  lemma MungeIsIdempotent(content: string)
    ensures Munge(Munge(content)) == Munge(content)
    ensures Emits(false, Munge(content)) == Emits(false, content)
  {
    assert Tracks("", "");
    SecondPass("", "", content);
  }

  // ----- Removing the markers -----

  /** What both kinds of markers start with. */
  const START := "/* EmitMunger */ /"

  function Without(close: string, s: string): (r: string)
    ensures |r| <= |s|
  {
    if close <= s then s[|close|..] else s
  }

  /** Drops the inserted pieces again; a statement after a multi-line marker also loses its closer. */
  function Stripped(single: string, multi: string, close: string, s: string): string
    requires single != ""
    decreases |s|
  {
    if s == "" then ""
    else if single <= s then Stripped(single, multi, close, s[|single|..])
    else if multi <= s && ';' in s[|multi|..] then
      var x := s[|multi|..];
      var n := ToSemicolon(x);
      x[..n] + Stripped(single, multi, close, Without(close, x[n..]))
    else [s[0]] + Stripped(single, multi, close, s[1..])
  }

  function Unmarked(s: string): string {
    Stripped(SINGLE, MULTI, CLOSE, s)
  }

  lemma PrefixTransitive(a: string, b: string, c: string)
    requires a <= b && b <= c
    ensures a <= c
  {
    assert c[..|a|] == b[..|a|] == a;
  }

  lemma BothStart()
    ensures START <= SINGLE && START <= MULTI
  {
    assert SINGLE == START + "/ " && MULTI == START + "* ";
  }

  lemma NoStartNoDrop(s: string)
    requires s != "" && !(START <= s)
    ensures Unmarked(s) == [s[0]] + Unmarked(s[1..])
  {
    BothStart();
    KeepFirst(START, SINGLE, MULTI, CLOSE, [s[0]], s[1..]);
    assert [s[0]] + s[1..] == s && [s[0]][1..] + s[1..] == s[1..];
  }

  /** Nothing that starts with `start` begins in `m` when `rest` follows it. */
  ghost predicate NoStartIn(start: string, m: string, rest: string) {
    forall i :: 0 <= i < |m| ==> !(start <= m[i..] + rest)
  }

  lemma KeepFirst(start: string, single: string, multi: string, close: string, m: string, rest: string)
    requires single != "" && start <= single && start <= multi && m != "" && !(start <= m + rest)
    ensures Stripped(single, multi, close, m + rest) == [m[0]] + Stripped(single, multi, close, m[1..] + rest)
  {
    var s := m + rest;
    assert s[0] == m[0] && s[1..] == m[1..] + rest;
    if single <= s {
      PrefixTransitive(start, single, s);
    } else if multi <= s {
      PrefixTransitive(start, multi, s);
    }
  }

  lemma StrippedKeeps(start: string, single: string, multi: string, close: string, m: string, rest: string)
    requires single != "" && start <= single && start <= multi && NoStartIn(start, m, rest)
    ensures Stripped(single, multi, close, m + rest) == m + Stripped(single, multi, close, rest)
  {
    var f := s => Stripped(single, multi, close, s);
    forall i | 0 <= i < |m|
      ensures f(m[i..] + rest) == [m[i]] + f(m[i + 1..] + rest)
    {
      assert m[i..][1..] == m[i + 1..];
      KeepFirst(start, single, multi, close, m[i..], rest);
    }
    CharByChar(f, m, rest);
  }

  lemma StartLacksSemicolon(k: nat)
    requires k < |START|
    ensures START[k] != ';'
  {
  }

  /** In a statement of unmarked text no marker starts: it would have to run past the semicolon. */
  lemma EmitHasNoStart(e: string, rest: string)
    requires e != "" && e[|e| - 1] == ';' && !Contains(e, MARK)
    ensures NoStartIn(START, e, rest)
  {
    forall i | 0 <= i < |e|
      ensures !(START <= e[i..] + rest)
    {
      var tail := e[i..];
      if |tail| >= |START| {
        assert START <= tail + rest ==> START <= tail;
        assert START == MARK + " /";
        assert START <= tail ==> MARK <= tail;
      } else {
        StartLacksSemicolon(|tail| - 1);
        assert (tail + rest)[|tail| - 1] == e[|e| - 1];
      }
    }
  }

  /** After a slash in `t`, other than its last character, comes a space. */
  predicate SpacedSlashes(t: string) {
    forall k :: 0 <= k < |t| - 1 && t[k] == '/' ==> t[k + 1] == ' '
  }

  lemma MarkedStartsComment(line: string, e: string)
    requires !Contains(line, MARK)
    ensures |Marked(line, e)| >= 2 && Marked(line, e)[0] == '/' && Marked(line, e)[1] == '*'
  {
  }

  lemma EmitOutputStartsComment(line: string, s: string)
    requires s != "" && EmitAt(LastIsWord(line), s) && !Contains(line, MARK)
    ensures |Munged(line, s)| >= 2 && Munged(line, s)[0] == '/' && Munged(line, s)[1] == '*'
  {
    MarkedStartsComment(line, s[..EmitLength(s)]);
  }

  /** Inside a marker that runs on, no further marker was inserted. */
  lemma NoInsertionInside(line: string, s: string, p: string)
    requires |p| >= 2 && (p[0] == '/' ==> p[1] == ' ') && p <= Munged(line, s) && !Contains(line, MARK)
    ensures s != "" && !EmitAt(LastIsWord(line), s)
  {
    assert Munged(line, s)[0] == p[0] && Munged(line, s)[1] == p[1];
    if s != "" && EmitAt(LastIsWord(line), s) {
      EmitOutputStartsComment(line, s);
    }
  }

  /** A marker that shows up in the output without being inserted there was in the input. */
  lemma {:induction false} MarkerComesFromInput(p: string, line: string, s: string)
    requires p != "" && SpacedSlashes(p) && p <= Munged(line, s) && !Contains(line + s, MARK)
    ensures p[..|p| - 1] <= s
    decreases |p|
  {
    if |p| > 1 {
      LineHasNoMark(line, s);
      NoInsertionInside(line, s, p);
      MungedUnmarked(line, s);
      PrefixTail(p, s[0], Munged(ExtendLine(line, s[0]), s[1..]));
      LineRestHasNoMark(line, s);
      assert SpacedSlashes(p[1..]);
      MarkerComesFromInput(p[1..], ExtendLine(line, s[0]), s[1..]);
      assert p[..|p| - 1] == [s[0]] + p[1..][..|p| - 2];
    }
  }

  lemma ContainsInfix(a: string, b: string, c: string, t: string)
    requires Contains(b, t)
    ensures Contains(a + b + c, t)
  {
    var i :| 0 <= i <= |b| && t <= b[i..];
    assert (a + b + c)[|a| + i..] == b[i..] + c;
  }

  lemma LineHasNoMark(line: string, s: string)
    requires !Contains(line + s, MARK)
    ensures !Contains(line, MARK) && !Contains(s, MARK)
  {
    assert "" + line + s == line + s && line + s + "" == line + s;
    if Contains(line, MARK) {
      ContainsInfix("", line, s, MARK);
    }
    if Contains(s, MARK) {
      ContainsInfix(line, s, "", MARK);
    }
  }

  lemma LineRestHasNoMark(line: string, s: string)
    requires s != "" && !Contains(line + s, MARK)
    ensures !Contains(ExtendLine(line, s[0]) + s[1..], MARK)
  {
    assert line + [s[0]] + s[1..] == line + s;
    if s[0] == '\n' {
      LineHasNoMark(line + [s[0]], s[1..]);
      assert "" + s[1..] == s[1..];
    }
  }

  lemma {:induction false} LineAfterHasNoMark(line: string, t: string, rest: string)
    requires !Contains(line + (t + rest), MARK)
    ensures !Contains(LineAfter(line, t) + rest, MARK)
    decreases |t|
  {
    if t == "" {
      assert t + rest == rest;
    } else {
      LineRestHasNoMark(line, t + rest);
      assert (t + rest)[0] == t[0] && (t + rest)[1..] == t[1..] + rest;
      LineAfterHasNoMark(ExtendLine(line, t[0]), t[1..], rest);
    }
  }

  lemma UnmarkSingle(e: string, rest: string)
    requires IsEmit(e) && e[|e| - 1] == ';' && !Contains(e, MARK)
    ensures Unmarked(SINGLE + e + rest) == e + Unmarked(rest)
  {
    BothStart();
    Associative(SINGLE, e, rest);
    StripSingle(SINGLE, MULTI, CLOSE, e + rest);
    EmitHasNoStart(e, rest);
    StrippedKeeps(START, SINGLE, MULTI, CLOSE, e, rest);
  }

  lemma StripSingle(single: string, multi: string, close: string, x: string)
    requires single != ""
    ensures Stripped(single, multi, close, single + x) == Stripped(single, multi, close, x)
  {
    assert (single + x)[|single|..] == x;
  }

  lemma StripMulti(single: string, multi: string, close: string, x: string)
    requires single != "" && ';' in x && multi != "" && !(single <= multi + x)
    ensures var n := ToSemicolon(x);
      Stripped(single, multi, close, multi + x) == x[..n] + Stripped(single, multi, close, Without(close, x[n..]))
  {
    assert (multi + x)[|multi|..] == x;
  }

  lemma SingleIsNotMulti(x: string)
    ensures !(SINGLE <= MULTI + x)
  {
    assert SINGLE == START + "/ " && MULTI == START + "* ";
    assert (MULTI + x)[|START|] == '*' && SINGLE[|START|] == '/';
  }

  lemma UnmarkMulti(e: string, rest: string)
    requires e != "" && e[|e| - 1] == ';' && ';' !in e[..|e| - 1]
    ensures Unmarked(MULTI + e + CLOSE + rest) == e + Unmarked(rest)
  {
    var x := e + (CLOSE + rest);
    Associative(MULTI + e, CLOSE, rest);
    Associative(MULTI, e, CLOSE + rest);
    SplitAtSemicolon(e, CLOSE, rest);
    SingleIsNotMulti(x);
    StripMulti(SINGLE, MULTI, CLOSE, x);
  }

  lemma SplitAtSemicolon(e: string, close: string, rest: string)
    requires e != "" && e[|e| - 1] == ';' && ';' !in e[..|e| - 1]
    ensures var x := e + (close + rest);
      && ';' in x && ToSemicolon(x) == |e| && x[..|e|] == e
      && close <= x[|e|..] && x[|e| + |close|..] == rest
  {
    var x := e + (close + rest);
    assert x[|e| - 1] == ';' && x[..|e| - 1] == e[..|e| - 1];
    FirstSemicolon(x, |e|);
    assert x[|e|..] == close + rest;
  }

  /** On text without markers, removing what munging inserted gives the text back. */
  lemma {:induction false} UnmarkMunged(line: string, s: string)
    requires !Contains(line + s, MARK)
    ensures Unmarked(Munged(line, s)) == s
    decreases |s|
  {
    if s != "" {
      LineHasNoMark(line, s);
      if EmitAt(LastIsWord(line), s) {
        var n := EmitLength(s);
        var e, rest := s[..n], s[n..];
        EmitShape(s);
        assert s == e + rest;
        LineAfterHasNoMark(line, e, rest);
        UnmarkMunged(LineAfter(line, e), rest);
        var tail := Munged(LineAfter(line, e), rest);
        if '\n' in e {
          UnmarkMulti(e, tail);
        } else {
          LineHasNoMark(e, rest);
          UnmarkSingle(e, tail);
        }
      } else {
        UnmarkChar(line, s);
        LineRestHasNoMark(line, s);
        UnmarkMunged(ExtendLine(line, s[0]), s[1..]);
      }
    }
  }

  lemma StartHoldsMark(s: string)
    requires s != "" && s[0] == START[0] && START[1..17] <= s[1..]
    ensures MARK <= s
  {
    assert START[..17] == [s[0]] + START[1..17] && s == [s[0]] + s[1..];
    assert MARK <= START[..17] <= s;
    PrefixTransitive(MARK, START[..17], s);
  }

  lemma StartIsSpaced()
    ensures SpacedSlashes(START[1..]) && START[1..][..|START| - 2] == START[1..17]
  {
  }

  lemma StartTail(s: string, o: string)
    requires s != "" && START <= [s[0]] + o
    ensures s[0] == START[0] && START[1..] <= o
  {
    PrefixTail(START, s[0], o);
  }

  /** A marker that starts with an input character goes on with input characters. */
  lemma StartComesFromInput(line: string, s: string)
    requires s != "" && !Contains(line + s, MARK) && s[0] == START[0]
    requires START[1..] <= Munged(ExtendLine(line, s[0]), s[1..])
    ensures MARK <= s
  {
    LineRestHasNoMark(line, s);
    StartIsSpaced();
    MarkerComesFromInput(START[1..], ExtendLine(line, s[0]), s[1..]);
    StartHoldsMark(s);
  }

  lemma NoStartInOutput(line: string, s: string)
    requires s != "" && !Contains(line + s, MARK) && !EmitAt(LastIsWord(line), s)
    ensures !(START <= Munged(line, s))
  {
    MungedUnmarked(line, s);
    LineHasNoMark(line, s);
    if START <= Munged(line, s) {
      StartTail(s, Munged(ExtendLine(line, s[0]), s[1..]));
      StartComesFromInput(line, s);
      MarkIsContained(s);
    }
  }

  lemma MarkIsContained(s: string)
    requires MARK <= s
    ensures Contains(s, MARK)
  {
    assert s[0..] == s;
  }

  lemma UnmarkChar(line: string, s: string)
    requires s != "" && !Contains(line + s, MARK) && !EmitAt(LastIsWord(line), s)
    ensures Unmarked(Munged(line, s)) == [s[0]] + Unmarked(Munged(ExtendLine(line, s[0]), s[1..]))
  {
    var o, o1 := Munged(line, s), Munged(ExtendLine(line, s[0]), s[1..]);
    MungedUnmarked(line, s);
    assert o[0] == s[0] && o[1..] == o1;
    NoStartInOutput(line, s);
    NoStartNoDrop(o);
  }

  /** Munging inserts markers and nothing else. */
  lemma UnmarkUndoesMunge(content: string)
    requires !Contains(content, MARK)
    ensures Unmarked(Munge(content)) == content
  {
    assert "" + content == content;
    UnmarkMunged("", content);
  }

  // ----- Insertions in any text -----

  datatype Segment = Kept(text: string) | Inserted(text: string)

  function MarkedSegments(line: string, emit: string): seq<Segment> {
    if Contains(line, MARK) then [Kept(emit)]
    else if '\n' in emit then [Inserted(MULTI), Kept(emit), Inserted(CLOSE)]
    else [Inserted(SINGLE), Kept(emit)]
  }

  /** The output piece by piece: what comes from the input, and what was inserted where. */
  function SegmentsBy(mark: (string, string) -> seq<Segment>, line: string, s: string): seq<Segment>
    decreases |s|
  {
    if s == "" then []
    else if EmitAt(LastIsWord(line), s) then
      var emit, rest := s[..EmitLength(s)], s[EmitLength(s)..];
      mark(line, emit) + SegmentsBy(mark, LineAfter(line, emit), rest)
    else [Kept([s[0]])] + SegmentsBy(mark, ExtendLine(line, s[0]), s[1..])
  }

  function Segments(line: string, s: string): seq<Segment> {
    SegmentsBy((line, emit) => MarkedSegments(line, emit), line, s)
  }

  function Joined(segments: seq<Segment>): string {
    if segments == [] then "" else segments[0].text + Joined(segments[1..])
  }

  /** What is left when the insertions are deleted. */
  function KeptText(segments: seq<Segment>): string {
    if segments == [] then ""
    else (if segments[0].Kept? then segments[0].text else "") + KeptText(segments[1..])
  }

  lemma {:induction false} JoinedConcat(a: seq<Segment>, b: seq<Segment>)
    ensures Joined(a + b) == Joined(a) + Joined(b)
  {
    if a == [] {
      assert a + b == b;
    } else {
      assert (a + b)[1..] == a[1..] + b;
      JoinedConcat(a[1..], b);
      Associative(a[0].text, Joined(a[1..]), Joined(b));
    }
  }

  lemma {:induction false} KeptConcat(a: seq<Segment>, b: seq<Segment>)
    ensures KeptText(a + b) == KeptText(a) + KeptText(b)
  {
    if a == [] {
      assert a + b == b;
    } else {
      assert (a + b)[1..] == a[1..] + b;
      KeptConcat(a[1..], b);
      Associative(if a[0].Kept? then a[0].text else "", KeptText(a[1..]), KeptText(b));
    }
  }

  lemma MarkedJoined(line: string, emit: string)
    ensures Joined(MarkedSegments(line, emit)) == Marked(line, emit)
    ensures KeptText(MarkedSegments(line, emit)) == emit
  {
    ThreeSegments(MULTI, emit, CLOSE);
    TwoSegments(SINGLE, emit);
    OneSegment(emit);
  }

  lemma OneSegment(text: string)
    ensures Joined([Kept(text)]) == text && KeptText([Kept(text)]) == text
    ensures Joined([Inserted(text)]) == text && KeptText([Inserted(text)]) == ""
  {
    assert [Kept(text)][1..] == [] && [Inserted(text)][1..] == [];
  }

  lemma TwoSegments(open: string, emit: string)
    ensures Joined([Inserted(open), Kept(emit)]) == open + emit && KeptText([Inserted(open), Kept(emit)]) == emit
  {
    assert [Inserted(open), Kept(emit)] == [Inserted(open)] + [Kept(emit)];
    OneSegment(open);
    OneSegment(emit);
    JoinedConcat([Inserted(open)], [Kept(emit)]);
    KeptConcat([Inserted(open)], [Kept(emit)]);
  }

  lemma ThreeSegments(open: string, emit: string, close: string)
    ensures Joined([Inserted(open), Kept(emit), Inserted(close)]) == open + emit + close
    ensures KeptText([Inserted(open), Kept(emit), Inserted(close)]) == emit
  {
    assert [Inserted(open), Kept(emit), Inserted(close)] == [Inserted(open), Kept(emit)] + [Inserted(close)];
    TwoSegments(open, emit);
    OneSegment(close);
    JoinedConcat([Inserted(open), Kept(emit)], [Inserted(close)]);
    KeptConcat([Inserted(open), Kept(emit)], [Inserted(close)]);
  }

  lemma SegmentsOfEmit(mark: (string, string) -> seq<Segment>, line: string, s: string)
    requires s != "" && EmitAt(LastIsWord(line), s)
    ensures var emit, rest := s[..EmitLength(s)], s[EmitLength(s)..];
      SegmentsBy(mark, line, s) == mark(line, emit) + SegmentsBy(mark, LineAfter(line, emit), rest)
  {
  }

  lemma SegmentsOfChar(mark: (string, string) -> seq<Segment>, line: string, s: string)
    requires s != "" && !EmitAt(LastIsWord(line), s)
    ensures SegmentsBy(mark, line, s) == [Kept([s[0]])] + SegmentsBy(mark, ExtendLine(line, s[0]), s[1..])
  {
  }

  lemma MungedEmit(line: string, s: string)
    requires s != "" && EmitAt(LastIsWord(line), s)
    ensures var emit, rest := s[..EmitLength(s)], s[EmitLength(s)..];
      Munged(line, s) == Marked(line, emit) + Munged(LineAfter(line, emit), rest)
  {
  }

  /** The segments put together are the output, and without the insertions they are the input. */
  ghost predicate Splits(segments: seq<Segment>, output: string, input: string) {
    Joined(segments) == output && KeptText(segments) == input
  }

  lemma SplitsConcat(a: seq<Segment>, b: seq<Segment>, output: string, output': string, input: string, input': string)
    requires Splits(a, output, input) && Splits(b, output', input')
    ensures Splits(a + b, output + output', input + input')
  {
    JoinedConcat(a, b);
    KeptConcat(a, b);
  }

  lemma {:induction false} SegmentsJoin(mark: (string, string) -> seq<Segment>, line: string, s: string)
    requires forall l, e :: Splits(mark(l, e), Marked(l, e), e)
    ensures Splits(SegmentsBy(mark, line, s), Munged(line, s), s)
    decreases |s|
  {
    if s != "" {
      if EmitAt(LastIsWord(line), s) {
        SegmentsJoin(mark, LineAfter(line, s[..EmitLength(s)]), s[EmitLength(s)..]);
        JoinEmit(mark, line, s);
      } else {
        SegmentsJoin(mark, ExtendLine(line, s[0]), s[1..]);
        JoinChar(mark, line, s);
      }
    }
  }

  lemma JoinEmit(mark: (string, string) -> seq<Segment>, line: string, s: string)
    requires s != "" && EmitAt(LastIsWord(line), s)
    requires var emit, rest := s[..EmitLength(s)], s[EmitLength(s)..];
      && Splits(mark(line, emit), Marked(line, emit), emit)
      && Splits(SegmentsBy(mark, LineAfter(line, emit), rest), Munged(LineAfter(line, emit), rest), rest)
    ensures Splits(SegmentsBy(mark, line, s), Munged(line, s), s)
  {
    var emit, rest := s[..EmitLength(s)], s[EmitLength(s)..];
    SegmentsOfEmit(mark, line, s);
    MungedEmit(line, s);
    SplitsConcat(mark(line, emit), SegmentsBy(mark, LineAfter(line, emit), rest),
                 Marked(line, emit), Munged(LineAfter(line, emit), rest), emit, rest);
    assert s == emit + rest;
  }

  lemma JoinChar(mark: (string, string) -> seq<Segment>, line: string, s: string)
    requires s != "" && !EmitAt(LastIsWord(line), s)
    requires var next := ExtendLine(line, s[0]);
      Splits(SegmentsBy(mark, next, s[1..]), Munged(next, s[1..]), s[1..])
    ensures Splits(SegmentsBy(mark, line, s), Munged(line, s), s)
  {
    var next := ExtendLine(line, s[0]);
    SegmentsOfChar(mark, line, s);
    MungedUnmarked(line, s);
    OneSegment([s[0]]);
    SplitsConcat([Kept([s[0]])], SegmentsBy(mark, next, s[1..]), [s[0]], Munged(next, s[1..]), [s[0]], s[1..]);
    assert s == [s[0]] + s[1..];
  }

  /** For every text the output is the input with pieces inserted, and deleting these gives the input back. */
  lemma MungeOnlyInserts(content: string)
    ensures Joined(Segments("", content)) == Munge(content) && KeptText(Segments("", content)) == content
  {
    forall l: string, e: string
      ensures Splits(MarkedSegments(l, e), Marked(l, e), e)
    {
      MarkedJoined(l, e);
    }
    SegmentsJoin((line, emit) => MarkedSegments(line, emit), "", content);
  }
}
