/**
 * Finding the imports of a CVL text: a scanner over characters, proved against the printing of
 * token sequences. Every text is the printing of some token sequence.
 */
module ImportScanner {
  import opened Text

  // ----- The scanner, as a function of the remaining text -----

  predicate IsImportSpace(c: char) {
    c == ' ' || c == '\t' || c == '\r' || c == '\n'
  }

  predicate StartsWithChar(s: string, c: char) {
    s != "" && s[0] == c
  }

  predicate StartsWithWordChar(s: string) {
    s != "" && IsWordChar(s[0])
  }

  function SkipString(s: string): (r: string)
    ensures |r| <= |s|
  {
    if s == "" then ""
    else if s[0] == '"' then s[1..]
    else if s[0] == '\\' then (if |s| >= 2 then SkipString(s[2..]) else "")
    else SkipString(s[1..])
  }

  function SkipLine(s: string): (r: string)
    ensures |r| <= |s|
  {
    if s == "" then "" else if s[0] == '\n' then s[1..] else SkipLine(s[1..])
  }

  function SkipBlock(s: string): (r: string)
    ensures |r| <= |s|
  {
    if |s| < 2 then "" else if s[0] == '*' && s[1] == '/' then s[2..] else SkipBlock(s[1..])
  }

  function SkipSpace(s: string): (r: string)
    ensures |r| <= |s|
    ensures r == "" || !IsImportSpace(r[0])
  {
    if s != "" && IsImportSpace(s[0]) then SkipSpace(s[1..]) else s
  }

  /** The unescaped text up to the closing quote, and what follows it. */
  function ReadTarget(s: string): (r: (string, string))
    ensures |r.1| <= |s|
  {
    if s == "" then ("", "")
    else if s[0] == '"' then ("", s[1..])
    else if s[0] == '\\' && |s| >= 2 then
      var t := ReadTarget(s[2..]);
      ([s[1]] + t.0, t.1)
    else
      var t := ReadTarget(s[1..]);
      ([s[0]] + t.0, t.1)
  }

  /** An `import` keyword, not the start of a longer identifier, followed by space and a quote. */
  predicate AtImport(afterWord: bool, s: string) {
    !afterWord && "import" <= s && |s| > 6 && !IsWordChar(s[6]) && StartsWithChar(SkipSpace(s[6..]), '"')
  }

  /** The import targets in `s`; `afterWord` says whether the character before `s` is a word character. */
  function Scan(afterWord: bool, s: string): seq<string>
    decreases |s|
  {
    if s == "" then []
    else if s[0] == '"' then Scan(false, SkipString(s[1..]))
    else if "//" <= s then Scan(false, SkipLine(s))
    else if "/*" <= s then Scan(false, SkipBlock(s[2..]))
    else if AtImport(afterWord, s) then
      var t := ReadTarget(SkipSpace(s[6..])[1..]);
      [t.0] + Scan(false, t.1)
    else Scan(IsWordChar(s[0]), s[1..])
  }

  // ----- Documents: token sequences with a possibly unterminated end -----

  datatype StrChar = Plain(c: char) | Escaped(c: char)

  datatype Token =
    | Word(text: string)
    | Punct(c: char)
    | Str(chars: seq<StrChar>)
    | LineComment(body: string)
    | BlockComment(body: string)
    | ImportStmt(space: string, target: seq<StrChar>)

  /** How a text may end: `dangling` is a last backslash with nothing to escape. */
  datatype End =
    | Eof
    | OpenStr(chars: seq<StrChar>, dangling: bool)
    | OpenLine(body: string)
    | OpenBlock(body: string)
    | OpenImport(space: string, target: seq<StrChar>, dangling: bool)

  function PrintChar(ch: StrChar): string {
    match ch
    case Plain(c) => [c]
    case Escaped(c) => ['\\', c]
  }

  function PrintChars(chars: seq<StrChar>): string {
    if chars == [] then "" else PrintChar(chars[0]) + PrintChars(chars[1..])
  }

  function Unescaped(chars: seq<StrChar>): string {
    if chars == [] then "" else [chars[0].c] + Unescaped(chars[1..])
  }

  function PrintToken(t: Token): string {
    match t
    case Word(text) => text
    case Punct(c) => [c]
    case Str(chars) => "\"" + PrintChars(chars) + "\""
    case LineComment(body) => "//" + body + "\n"
    case BlockComment(body) => "/*" + body + "*/"
    case ImportStmt(space, target) => "import" + space + "\"" + PrintChars(target) + "\""
  }

  function Dangle(dangling: bool): string {
    if dangling then "\\" else ""
  }

  function PrintEnd(e: End): string {
    match e
    case Eof => ""
    case OpenStr(chars, dangling) => "\"" + PrintChars(chars) + Dangle(dangling)
    case OpenLine(body) => "//" + body
    case OpenBlock(body) => "/*" + body
    case OpenImport(space, target, dangling) => "import" + space + "\"" + PrintChars(target) + Dangle(dangling)
  }

  function Print(ts: seq<Token>, e: End): string {
    if ts == [] then PrintEnd(e) else PrintToken(ts[0]) + Print(ts[1..], e)
  }

  /** What the scanner ought to find: the unescaped targets of the import statements, in order. */
  function Targets(ts: seq<Token>, e: End): seq<string> {
    if ts == [] then (if e.OpenImport? then [Unescaped(e.target) + Dangle(e.dangling)] else [])
    else (if ts[0].ImportStmt? then [Unescaped(ts[0].target)] else []) + Targets(ts[1..], e)
  }

  predicate CharsOk(chars: seq<StrChar>) {
    forall i :: 0 <= i < |chars| && chars[i].Plain? ==> chars[i].c != '"' && chars[i].c != '\\'
  }

  predicate AllSpace(s: string) {
    forall i :: 0 <= i < |s| ==> IsImportSpace(s[i])
  }

  predicate ClosesNothing(body: string) {
    forall i :: 0 <= i < |body| - 1 ==> !(body[i] == '*' && body[i + 1] == '/')
  }

  predicate TokenOk(t: Token) {
    match t
    case Word(text) => text != "" && forall i :: 0 <= i < |text| ==> IsWordChar(text[i])
    case Punct(c) => !IsWordChar(c) && c != '"'
    case Str(chars) => CharsOk(chars)
    case LineComment(body) => '\n' !in body
    case BlockComment(body) => ClosesNothing(body)
    case ImportStmt(space, target) => AllSpace(space) && CharsOk(target)
  }

  predicate EndOk(e: End) {
    match e
    case Eof => true
    case OpenStr(chars, _) => CharsOk(chars)
    case OpenLine(body) => '\n' !in body
    case OpenBlock(body) => ClosesNothing(body)
    case OpenImport(space, target, _) => AllSpace(space) && CharsOk(target)
  }

  /** Tokens are as long as they can be: what follows does not continue or change `t`. */
  predicate Separated(t: Token, rest: string) {
    match t
    case Word(text) => !StartsWithWordChar(rest) && (text == "import" ==> !StartsWithChar(SkipSpace(rest), '"'))
    case Punct(c) => c == '/' ==> !StartsWithChar(rest, '/') && !StartsWithChar(rest, '*')
    case _ => true
  }

  predicate WellFormed(ts: seq<Token>, e: End) {
    if ts == [] then EndOk(e)
    else TokenOk(ts[0]) && Separated(ts[0], Print(ts[1..], e)) && WellFormed(ts[1..], e)
  }

  // ----- Scanning printed pieces -----

  lemma {:induction false} SkipPrintedChars(chars: seq<StrChar>, rest: string)
    requires CharsOk(chars)
    ensures SkipString(PrintChars(chars) + rest) == SkipString(rest)
    decreases |chars|
  {
    if chars != [] {
      SkipPrintedChars(chars[1..], rest);
      var tail := PrintChars(chars[1..]) + rest;
      Associative(PrintChar(chars[0]), PrintChars(chars[1..]), rest);
      assert (PrintChar(chars[0]) + tail)[|PrintChar(chars[0])|..] == tail;
    } else {
      assert PrintChars(chars) + rest == rest;
    }
  }

  lemma {:induction false} ReadPrintedTarget(chars: seq<StrChar>, rest: string)
    requires CharsOk(chars)
    ensures ReadTarget(PrintChars(chars) + rest) == (Unescaped(chars) + ReadTarget(rest).0, ReadTarget(rest).1)
    decreases |chars|
  {
    if chars != [] {
      ReadPrintedTarget(chars[1..], rest);
      var tail := PrintChars(chars[1..]) + rest;
      Associative(PrintChar(chars[0]), PrintChars(chars[1..]), rest);
      assert (PrintChar(chars[0]) + tail)[|PrintChar(chars[0])|..] == tail;
      Associative([chars[0].c], Unescaped(chars[1..]), ReadTarget(rest).0);
    } else {
      assert PrintChars(chars) + rest == rest;
      assert "" + ReadTarget(rest).0 == ReadTarget(rest).0;
    }
  }

  lemma {:induction false} SkipPrintedLine(body: string, rest: string)
    requires '\n' !in body
    ensures SkipLine(body + rest) == SkipLine(rest)
    decreases |body|
  {
    if body != "" {
      assert (body + rest)[1..] == body[1..] + rest;
      SkipPrintedLine(body[1..], rest);
    } else {
      assert body + rest == rest;
    }
  }

  lemma {:induction false} SkipPrintedBlock(body: string, rest: string)
    requires ClosesNothing(body)
    ensures SkipBlock(body + "*/" + rest) == rest
    decreases |body|
  {
    var s := body + "*/" + rest;
    if body != "" {
      assert s[1..] == body[1..] + "*/" + rest;
      assert s[1] == if |body| > 1 then body[1] else '*';
      SkipPrintedBlock(body[1..], rest);
    } else {
      assert s[2..] == rest;
    }
  }

  lemma {:induction false} SkipOpenBlock(body: string)
    requires ClosesNothing(body)
    ensures SkipBlock(body) == ""
    decreases |body|
  {
    if |body| >= 2 {
      SkipOpenBlock(body[1..]);
    }
  }

  lemma {:induction false} SkipPrintedSpace(space: string, rest: string)
    requires AllSpace(space)
    ensures SkipSpace(space + rest) == SkipSpace(rest)
    decreases |space|
  {
    if space != "" {
      assert (space + rest)[1..] == space[1..] + rest;
      SkipPrintedSpace(space[1..], rest);
    } else {
      assert space + rest == rest;
    }
  }

  lemma {:induction false} ScanWordTail(w: string, rest: string)
    requires forall i :: 0 <= i < |w| ==> IsWordChar(w[i])
    ensures Scan(true, w + rest) == Scan(true, rest)
    decreases |w|
  {
    if w != "" {
      var s := w + rest;
      assert s[0] == w[0] && s[1..] == w[1..] + rest;
      ScanWordTail(w[1..], rest);
    } else {
      assert w + rest == rest;
    }
  }

  lemma WordIsNoImport(afterWord: bool, w: string, rest: string)
    requires TokenOk(Word(w)) && Separated(Word(w), rest)
    ensures !AtImport(afterWord, w + rest)
  {
    var s := w + rest;
    if |w| > 6 {
      assert s[6] == w[6];
    } else if |w| < 6 {
      assert rest != "" ==> s[|w|] == rest[0];
      assert IsWordChar("import"[|w|]);
    } else {
      assert s[..6] == w && s[6..] == rest;
    }
  }

  lemma ScanWord(afterWord: bool, w: string, rest: string)
    requires TokenOk(Word(w)) && Separated(Word(w), rest)
    ensures Scan(afterWord, w + rest) == Scan(true, rest)
  {
    WordIsNoImport(afterWord, w, rest);
    var s := w + rest;
    assert s[0] == w[0] && s[1..] == w[1..] + rest;
    ScanWordTail(w[1..], rest);
  }

  lemma PrintedImport(space: string, quoted: string)
    requires AllSpace(space) && StartsWithChar(quoted, '"')
    ensures AtImport(false, "import" + space + quoted)
    ensures SkipSpace(("import" + space + quoted)[6..]) == quoted
  {
    var s := "import" + space + quoted;
    Associative("import", space, quoted);
    assert s[6..] == space + quoted;
    assert s[6] == if space == "" then '"' else space[0];
    SkipPrintedSpace(space, quoted);
  }

  lemma ScanAtImport(s: string)
    requires AtImport(false, s)
    ensures var t := ReadTarget(SkipSpace(s[6..])[1..]); Scan(false, s) == [t.0] + Scan(false, t.1)
  {
    assert s[0] == "import"[0];
  }

  lemma ScanImport(space: string, target: seq<StrChar>, rest: string)
    requires AllSpace(space) && CharsOk(target)
    ensures Scan(false, "import" + space + ("\"" + (PrintChars(target) + rest)))
         == [Unescaped(target) + ReadTarget(rest).0] + Scan(false, ReadTarget(rest).1)
  {
    var body := PrintChars(target) + rest;
    var quoted := "\"" + body;
    assert quoted[1..] == body;
    PrintedImport(space, quoted);
    ReadPrintedTarget(target, rest);
    ScanAtImport("import" + space + quoted);
  }

  lemma ScanPunct(afterWord: bool, c: char, rest: string)
    requires TokenOk(Punct(c)) && Separated(Punct(c), rest)
    ensures Scan(afterWord, PrintToken(Punct(c)) + rest) == Scan(false, rest)
  {
    var s := [c] + rest;
    assert s[0] == c && s[1..] == rest;
    if |s| > 1 {
      assert s[1] == rest[0];
    }
  }

  lemma ScanStr(afterWord: bool, chars: seq<StrChar>, rest: string)
    requires CharsOk(chars)
    ensures Scan(afterWord, PrintToken(Str(chars)) + rest) == Scan(false, rest)
  {
    var q := "\"";
    Associative(q + PrintChars(chars), q, rest);
    Associative(q, PrintChars(chars), q + rest);
    var s := q + (PrintChars(chars) + (q + rest));
    assert s[1..] == PrintChars(chars) + (q + rest);
    SkipPrintedChars(chars, q + rest);
    assert (q + rest)[1..] == rest;
  }

  lemma ScanLineComment(afterWord: bool, body: string, rest: string)
    requires '\n' !in body
    ensures Scan(afterWord, PrintToken(LineComment(body)) + rest) == Scan(false, rest)
  {
    Associative("//" + body, "\n", rest);
    var s := "//" + body + ("\n" + rest);
    assert s[0] == '/' && s[1] == '/';
    SkipPrintedLine("//" + body, "\n" + rest);
    assert ("\n" + rest)[1..] == rest;
  }

  lemma ScanBlockComment(afterWord: bool, body: string, rest: string)
    requires ClosesNothing(body)
    ensures Scan(afterWord, PrintToken(BlockComment(body)) + rest) == Scan(false, rest)
  {
    Associative("/*", body, "*/");
    Associative("/*", body + "*/", rest);
    var s := "/*" + (body + "*/" + rest);
    assert s[0] == '/' && s[1] == '*' && s[2..] == body + "*/" + rest;
    SkipPrintedBlock(body, rest);
  }

  lemma ScanImportStmt(space: string, target: seq<StrChar>, rest: string)
    requires AllSpace(space) && CharsOk(target)
    ensures Scan(false, PrintToken(ImportStmt(space, target)) + rest) == [Unescaped(target)] + Scan(false, rest)
  {
    var a, q := "import" + space, "\"";
    Associative(a + q + PrintChars(target), q, rest);
    Associative(a + q, PrintChars(target), q + rest);
    Associative(a, q, PrintChars(target) + (q + rest));
    ScanImport(space, target, q + rest);
    assert (q + rest)[1..] == rest;
    assert Unescaped(target) + "" == Unescaped(target);
  }

  /** One token: its target if it is an import, and then the rest of the text. */
  lemma ScanToken(afterWord: bool, t: Token, rest: string)
    requires TokenOk(t) && Separated(t, rest)
    requires afterWord ==> !t.ImportStmt?
    ensures Scan(afterWord, PrintToken(t) + rest)
         == (if t.ImportStmt? then [Unescaped(t.target)] else []) + Scan(t.Word?, rest)
  {
    match t
    case Word(text) => ScanWord(afterWord, text, rest);
    case Punct(c) => ScanPunct(afterWord, c, rest);
    case Str(chars) => ScanStr(afterWord, chars, rest);
    case LineComment(body) => ScanLineComment(afterWord, body, rest);
    case BlockComment(body) => ScanBlockComment(afterWord, body, rest);
    case ImportStmt(space, target) => ScanImportStmt(space, target, rest);
  }

  lemma ImportStartsWithWordChar(space: string, target: seq<StrChar>, rest: string)
    ensures StartsWithWordChar(PrintToken(ImportStmt(space, target)) + rest)
  {
    assert PrintToken(ImportStmt(space, target))[0] == "import"[0];
  }

  lemma ReadDangle(dangling: bool)
    ensures ReadTarget(Dangle(dangling)) == (Dangle(dangling), "")
  {
    if dangling {
      assert "\\"[1..] == "";
      assert ["\\"[0]] + "" == "\\";
    }
  }

  lemma ScanEnd(afterWord: bool, e: End)
    requires EndOk(e) && (afterWord ==> !e.OpenImport?)
    ensures Scan(afterWord, PrintEnd(e)) == Targets([], e)
  {
    var s := PrintEnd(e);
    match e
    case Eof =>
    case OpenStr(chars, dangling) =>
      assert s[1..] == PrintChars(chars) + Dangle(dangling);
      SkipPrintedChars(chars, Dangle(dangling));
    case OpenLine(body) =>
      SkipPrintedLine("//" + body, "");
      assert s + "" == s;
    case OpenBlock(body) =>
      assert s[0] == '/' && s[1] == '*' && s[2..] == body;
      SkipOpenBlock(body);
    case OpenImport(space, target, dangling) =>
      var body := PrintChars(target) + Dangle(dangling);
      assert s == "import" + space + ("\"" + body);
      ScanImport(space, target, Dangle(dangling));
      ReadDangle(dangling);
      assert Targets([], e) == [Unescaped(target) + Dangle(dangling)];
  }

  /**
   * Scanning the printing of a document returns exactly its import targets: nothing inside a string
   * or a comment, and no identifier that merely starts with the keyword.
   */
  lemma {:induction false} ScanPrinted(afterWord: bool, ts: seq<Token>, e: End)
    requires WellFormed(ts, e) && (afterWord ==> !StartsWithWordChar(Print(ts, e)))
    ensures Scan(afterWord, Print(ts, e)) == Targets(ts, e)
    decreases |ts|
  {
    if ts == [] {
      ScanEnd(afterWord, e);
    } else {
      if ts[0].ImportStmt? {
        ImportStartsWithWordChar(ts[0].space, ts[0].target, Print(ts[1..], e));
      }
      ScanToken(afterWord, ts[0], Print(ts[1..], e));
      ScanPrinted(ts[0].Word?, ts[1..], e);
    }
  }

  // ----- Every text is a document -----

  lemma {:induction false} SplitString(s: string) returns (closed: bool, chars: seq<StrChar>, dangling: bool, rest: string)
    ensures CharsOk(chars) && |rest| <= |s|
    ensures s == if closed then PrintChars(chars) + ("\"" + rest) else PrintChars(chars) + Dangle(dangling)
    decreases |s|
  {
    if s == "" || s == "\\" {
      closed, chars, dangling, rest := false, [], s != "", "";
    } else if s[0] == '"' {
      closed, chars, dangling, rest := true, [], false, s[1..];
      assert s == "\"" + rest;
    } else {
      var n := if s[0] == '\\' then 2 else 1;
      var first := if s[0] == '\\' then Escaped(s[1]) else Plain(s[0]);
      var tail;
      closed, tail, dangling, rest := SplitString(s[n..]);
      chars := [first] + tail;
      assert chars[1..] == tail;
      assert s == s[..n] + s[n..] && s[..n] == PrintChar(first);
      Associative(PrintChar(first), PrintChars(tail), if closed then "\"" + rest else Dangle(dangling));
    }
  }

  lemma {:induction false} SplitLine(s: string) returns (closed: bool, body: string, rest: string)
    ensures '\n' !in body && |rest| <= |s|
    ensures s == if closed then body + ("\n" + rest) else body
    decreases |s|
  {
    if s == "" {
      closed, body, rest := false, "", "";
    } else if s[0] == '\n' {
      closed, body, rest := true, "", s[1..];
      assert s == "\n" + rest;
    } else {
      var tail;
      closed, tail, rest := SplitLine(s[1..]);
      body := [s[0]] + tail;
    }
  }

  lemma {:induction false} SplitBlock(s: string) returns (closed: bool, body: string, rest: string)
    ensures ClosesNothing(body) && |rest| <= |s|
    ensures s == if closed then body + ("*/" + rest) else body
    ensures closed ==> forall i :: 0 <= i < |body| ==> !(s[i] == '*' && s[i + 1] == '/')
    decreases |s|
  {
    if |s| < 2 {
      closed, body, rest := false, s, "";
    } else if s[0] == '*' && s[1] == '/' {
      closed, body, rest := true, "", s[2..];
      assert s == "*/" + rest;
    } else {
      var tail;
      closed, tail, rest := SplitBlock(s[1..]);
      body := [s[0]] + tail;
      assert s == [s[0]] + s[1..];
      assert |tail| > 0 ==> tail[0] == s[1];
    }
  }

  lemma {:induction false} SplitSpace(s: string) returns (space: string)
    ensures AllSpace(space) && s == space + SkipSpace(s)
    decreases |s|
  {
    if s != "" && IsImportSpace(s[0]) {
      var tail := SplitSpace(s[1..]);
      space := [s[0]] + tail;
      Associative([s[0]], tail, SkipSpace(s));
    } else {
      space := "";
    }
  }

  lemma {:induction false} SplitWord(s: string) returns (w: string, rest: string)
    ensures (forall i :: 0 <= i < |w| ==> IsWordChar(w[i])) && s == w + rest && !StartsWithWordChar(rest)
    ensures StartsWithWordChar(s) ==> w != ""
    decreases |s|
  {
    if StartsWithWordChar(s) {
      var tail;
      tail, rest := SplitWord(s[1..]);
      w := [s[0]] + tail;
      Associative([s[0]], tail, rest);
    } else {
      w, rest := "", s;
    }
  }

  /** The first token of a text, or its end. */
  lemma FirstToken(afterWord: bool, s: string) returns (isEnd: bool, t: Token, e: End, rest: string)
    requires afterWord ==> !StartsWithWordChar(s)
    ensures isEnd ==> EndOk(e) && s == PrintEnd(e)
    ensures !isEnd ==> TokenOk(t) && s == PrintToken(t) + rest && Separated(t, rest)
    ensures !isEnd && t.Word? ==> !StartsWithWordChar(rest)
  {
    isEnd, t, e, rest := true, Punct(' '), Eof, "";
    if s == "" {
    } else if s[0] == '"' {
      assert s == "\"" + s[1..];
      isEnd, t, e, rest := FirstStr(s);
    } else if "//" <= s {
      isEnd, t, e, rest := FirstLine(s);
    } else if "/*" <= s {
      isEnd, t, e, rest := FirstBlock(s);
    } else if AtImport(afterWord, s) {
      isEnd, t, e, rest := FirstImport(s);
    } else if StartsWithWordChar(s) {
      var w;
      w, rest := SplitWord(s);
      isEnd, t := false, Word(w);
      if w == "import" {
        assert s[6..] == rest;
      }
    } else {
      isEnd, t, rest := false, Punct(s[0]), s[1..];
      assert s == [s[0]] + s[1..];
      if s[0] == '/' && rest != "" {
        assert s[1] == rest[0];
        assert s[..2] == [s[0], s[1]];
      }
    }
  }

  lemma FirstStr(s: string) returns (isEnd: bool, t: Token, e: End, rest: string)
    requires StartsWithChar(s, '"')
    ensures isEnd ==> EndOk(e) && s == PrintEnd(e)
    ensures !isEnd ==> TokenOk(t) && t.Str? && s == PrintToken(t) + rest
  {
    var closed, chars, dangling, r := SplitString(s[1..]);
    var q := "\"";
    assert s == q + s[1..];
    isEnd, t, e, rest := !closed, Str(chars), OpenStr(chars, dangling), r;
    if closed {
      Associative(q + PrintChars(chars), q, rest);
      Associative(q, PrintChars(chars), q + rest);
    } else {
      Associative(q, PrintChars(chars), Dangle(dangling));
    }
  }

  lemma FirstLine(s: string) returns (isEnd: bool, t: Token, e: End, rest: string)
    requires "//" <= s
    ensures isEnd ==> EndOk(e) && s == PrintEnd(e)
    ensures !isEnd ==> TokenOk(t) && t.LineComment? && s == PrintToken(t) + rest
  {
    var closed, body, r := SplitLine(s[2..]);
    assert s == "//" + s[2..];
    isEnd, t, e, rest := !closed, LineComment(body), OpenLine(body), r;
    if closed {
      Associative("//" + body, "\n", rest);
      Associative("//", body, "\n" + rest);
    }
  }

  lemma FirstBlock(s: string) returns (isEnd: bool, t: Token, e: End, rest: string)
    requires "/*" <= s
    ensures isEnd ==> EndOk(e) && s == PrintEnd(e)
    ensures !isEnd ==> TokenOk(t) && t.BlockComment? && s == PrintToken(t) + rest
  {
    var closed, body, r := SplitBlock(s[2..]);
    assert s == "/*" + s[2..];
    isEnd, t, e, rest := !closed, BlockComment(body), OpenBlock(body), r;
    if closed {
      Associative("/*" + body, "*/", rest);
      Associative("/*", body, "*/" + rest);
    }
  }

  lemma FirstImport(s: string) returns (isEnd: bool, t: Token, e: End, rest: string)
    requires AtImport(false, s)
    ensures isEnd ==> EndOk(e) && s == PrintEnd(e)
    ensures !isEnd ==> TokenOk(t) && t.ImportStmt? && s == PrintToken(t) + rest
  {
    var space := SplitSpace(s[6..]);
    var quoted := SkipSpace(s[6..]);
    var closed, chars, dangling, r := SplitString(quoted[1..]);
    var a, q := "import" + space, "\"";
    assert s == "import" + s[6..] && quoted == q + quoted[1..];
    Associative("import", space, quoted);
    assert s == a + quoted;
    isEnd, t, e, rest := !closed, ImportStmt(space, chars), OpenImport(space, chars, dangling), r;
    if closed {
      Associative(a + q + PrintChars(chars), q, rest);
      Associative(a + q, PrintChars(chars), q + rest);
      Associative(a, q, PrintChars(chars) + (q + rest));
    } else {
      Associative(a + q, PrintChars(chars), Dangle(dangling));
      Associative(a, q, PrintChars(chars) + Dangle(dangling));
    }
  }

  lemma {:induction false} EveryTextIsADocument(afterWord: bool, s: string) returns (ts: seq<Token>, e: End)
    requires afterWord ==> !StartsWithWordChar(s)
    ensures WellFormed(ts, e) && Print(ts, e) == s
    decreases |s|
  {
    var isEnd, t, end, rest := FirstToken(afterWord, s);
    if isEnd {
      ts, e := [], end;
    } else {
      TokenNotEmpty(t);
      var more;
      more, e := EveryTextIsADocument(t.Word?, rest);
      ts := [t] + more;
      assert ts[1..] == more;
    }
  }

  lemma TokenNotEmpty(t: Token)
    requires TokenOk(t)
    ensures |PrintToken(t)| > 0
  {
  }

  /** On every text the scanner returns the import targets of the document that the text prints. */
  lemma ScannerIsExact(text: string) returns (ts: seq<Token>, e: End)
    ensures WellFormed(ts, e) && Print(ts, e) == text
    ensures Scan(false, text) == Targets(ts, e)
  {
    ts, e := EveryTextIsADocument(false, text);
    ScanPrinted(false, ts, e);
  }

  // ----- The algorithm over indices -----

  function Rest(text: string, i: nat): string {
    if i <= |text| then text[i..] else ""
  }

  function AfterWord(text: string, i: nat): bool {
    0 < i <= |text| && IsWordChar(text[i - 1])
  }

  lemma RestStep(text: string, i: nat, d: nat)
    requires i + d <= |text|
    ensures Rest(text, i)[d..] == Rest(text, i + d)
  {
  }

  lemma SkipStringStep(text: string, i: nat)
    ensures i >= |text| ==> SkipString(Rest(text, i)) == Rest(text, i)
    ensures i < |text| && text[i] == '"' ==> SkipString(Rest(text, i)) == Rest(text, i + 1)
    ensures i < |text| && text[i] == '\\' ==> SkipString(Rest(text, i)) == SkipString(Rest(text, i + 2))
    ensures i < |text| && text[i] != '"' && text[i] != '\\' ==> SkipString(Rest(text, i)) == SkipString(Rest(text, i + 1))
  {
    if i + 2 <= |text| {
      RestStep(text, i, 2);
    }
    if i < |text| {
      RestStep(text, i, 1);
    }
  }

  /** The index after a string literal whose content starts at `start`. */
  method StringEnd(text: string, start: nat) returns (i: nat)
    requires start <= |text|
    ensures start < i && Rest(text, i) == SkipString(Rest(text, start)) && !AfterWord(text, i)
  {
    i := start;
    ghost var whole := SkipString(Rest(text, start));
    while i < |text| && text[i] != '"'
      invariant start <= i && SkipString(Rest(text, i)) == whole
      decreases |text| - i
    {
      SkipStringStep(text, i);
      i := i + if text[i] == '\\' then 2 else 1;
    }
    SkipStringStep(text, i);
    i := i + 1;
  }

  lemma SkipLineStep(text: string, i: nat)
    requires i < |text|
    ensures SkipLine(Rest(text, i)) == if text[i] == '\n' then Rest(text, i + 1) else SkipLine(Rest(text, i + 1))
  {
    RestStep(text, i, 1);
  }

  /** The index after the line that `start` is on. */
  method LineEnd(text: string, start: nat) returns (i: nat)
    requires start < |text|
    ensures start < i <= |text| && Rest(text, i) == SkipLine(Rest(text, start))
    ensures i < |text| ==> !AfterWord(text, i)
  {
    i := start;
    ghost var whole := SkipLine(Rest(text, start));
    while i < |text| && text[i] != '\n'
      invariant start <= i <= |text| && SkipLine(Rest(text, i)) == whole
    {
      SkipLineStep(text, i);
      i := i + 1;
    }
    if i < |text| {
      SkipLineStep(text, i);
      i := i + 1;
    }
  }

  lemma SkipBlockStep(text: string, i: nat)
    requires i <= |text|
    ensures i + 1 >= |text| ==> SkipBlock(Rest(text, i)) == ""
    ensures i + 1 < |text| ==>
      SkipBlock(Rest(text, i)) == if text[i] == '*' && text[i + 1] == '/' then Rest(text, i + 2) else SkipBlock(Rest(text, i + 1))
  {
    if i + 1 < |text| {
      RestStep(text, i, 1);
      RestStep(text, i, 2);
    }
  }

  /** The index after the block comment whose body starts at `start`. */
  method BlockEnd(text: string, start: nat) returns (i: nat)
    requires start <= |text|
    ensures start <= i <= |text| && Rest(text, i) == SkipBlock(Rest(text, start))
    ensures i < |text| ==> !AfterWord(text, i)
  {
    i := start;
    ghost var whole := SkipBlock(Rest(text, start));
    while i + 1 < |text| && !(text[i] == '*' && text[i + 1] == '/')
      invariant start <= i <= |text| && SkipBlock(Rest(text, i)) == whole
    {
      SkipBlockStep(text, i);
      i := i + 1;
    }
    SkipBlockStep(text, i);
    if i + 1 < |text| {
      assert whole == Rest(text, i + 2);
      i := i + 2;
    } else {
      assert whole == "";
      i := |text|;
    }
  }

  method SpaceEnd(text: string, start: nat) returns (k: nat)
    requires start <= |text|
    ensures start <= k <= |text| && Rest(text, k) == SkipSpace(Rest(text, start))
  {
    k := start;
    while k < |text| && IsImportSpace(text[k])
      invariant start <= k <= |text| && SkipSpace(Rest(text, k)) == SkipSpace(Rest(text, start))
    {
      RestStep(text, k, 1);
      k := k + 1;
    }
  }

  /** The number of characters that the next character of a target takes up. */
  function Width(text: string, m: nat): nat
    requires m < |text|
  {
    if text[m] == '\\' && m + 1 < |text| then 2 else 1
  }

  lemma ReadOneChar(text: string, m: nat)
    requires m < |text| && text[m] != '"'
    ensures m + Width(text, m) <= |text|
    ensures var t := ReadTarget(Rest(text, m + Width(text, m)));
      ReadTarget(Rest(text, m)) == ([text[m + Width(text, m) - 1]] + t.0, t.1)
  {
    RestStep(text, m, Width(text, m));
  }

  /** What is read from `start` is `target`, and then what is read from m. */
  ghost predicate ReadUpTo(text: string, start: nat, target: string, m: nat)
    requires start <= |text| && m <= |text|
  {
    ReadTarget(Rest(text, start)) == (target + ReadTarget(Rest(text, m)).0, ReadTarget(Rest(text, m)).1)
  }

  lemma ReadOneMore(text: string, start: nat, target: string, m: nat)
    requires start <= |text| && m < |text| && text[m] != '"' && ReadUpTo(text, start, target, m)
    ensures var w := Width(text, m);
      m + w <= |text| && ReadUpTo(text, start, target + [text[m + w - 1]], m + w)
  {
    var w := Width(text, m);
    ReadOneChar(text, m);
    Associative(target, [text[m + w - 1]], ReadTarget(Rest(text, m + w)).0);
  }

  /** One character, or an escaped one without its backslash. */
  method TargetChar(text: string, ghost start: nat, target: string, m: nat) returns (target': string, m': nat)
    requires start <= |text| && m < |text| && text[m] != '"' && ReadUpTo(text, start, target, m)
    ensures m < m' <= |text| && ReadUpTo(text, start, target', m')
  {
    ReadOneMore(text, start, target, m);
    if text[m] == '\\' && m + 1 < |text| {
      target', m' := target + [text[m + 1]], m + 2;
    } else {
      target', m' := target + [text[m]], m + 1;
    }
  }

  lemma ReadToEnd(text: string, start: nat, target: string, m: nat)
    requires start <= |text| && m <= |text| && (m < |text| ==> text[m] == '"') && ReadUpTo(text, start, target, m)
    ensures ReadTarget(Rest(text, start)) == (target, Rest(text, m + 1))
  {
    if m < |text| {
      RestStep(text, m, 1);
    }
    assert target + "" == target;
  }

  lemma ReadNothing(text: string, start: nat)
    requires start <= |text|
    ensures ReadUpTo(text, start, "", start)
  {
    assert "" + ReadTarget(Rest(text, start)).0 == ReadTarget(Rest(text, start)).0;
  }

  /** The unescaped target whose text starts at `start`, and the index of its closing quote. */
  method TargetEnd(text: string, start: nat) returns (target: string, m: nat)
    requires start <= |text|
    ensures start <= m <= |text| && !AfterWord(text, m + 1)
    ensures ReadTarget(Rest(text, start)) == (target, Rest(text, m + 1))
  {
    m, target := start, "";
    ReadNothing(text, start);
    while m < |text| && text[m] != '"'
      invariant start <= m <= |text| && ReadUpTo(text, start, target, m)
    {
      target, m := TargetChar(text, start, target, m);
    }
    ReadToEnd(text, start, target, m);
  }

  lemma QuoteAt(text: string, j: nat, k: nat)
    requires j <= |text| && k <= |text| && Rest(text, k) == SkipSpace(Rest(text, j))
    ensures StartsWithChar(SkipSpace(Rest(text, j)), '"') <==> k < |text| && text[k] == '"'
    ensures k < |text| ==> SkipSpace(Rest(text, j))[1..] == Rest(text, k + 1)
  {
    if k < |text| {
      RestStep(text, k, 1);
    }
  }

  /** A quoted target after optional space. */
  method QuotedTarget(text: string, j: nat) returns (found: bool, target: string, next: nat)
    requires j <= |text|
    ensures found <==> StartsWithChar(SkipSpace(Rest(text, j)), '"')
    ensures found ==> j < next && !AfterWord(text, next)
    ensures found ==> ReadTarget(SkipSpace(Rest(text, j))[1..]) == (target, Rest(text, next))
  {
    found, target, next := false, "", 0;
    var k := SpaceEnd(text, j);
    QuoteAt(text, j, k);
    if k < |text| && text[k] == '"' {
      var m;
      target, m := TargetEnd(text, k + 1);
      found, next := true, m + 1;
    }
  }

  /** Whether the keyword stands at index i, on its own, and is followed by something. */
  predicate KeywordAt(text: string, i: nat)
    requires i < |text|
  {
    "import" <= text[i..] && (i == 0 || !IsWordChar(text[i - 1])) && i + 6 < |text| && !IsWordChar(text[i + 6])
  }

  lemma AtImportByIndex(text: string, i: nat)
    requires i < |text|
    ensures AtImport(AfterWord(text, i), Rest(text, i)) <==>
      KeywordAt(text, i) && StartsWithChar(SkipSpace(Rest(text, i + 6)), '"')
    ensures KeywordAt(text, i) ==> Rest(text, i)[6..] == Rest(text, i + 6)
  {
    if i + 6 < |text| {
      RestStep(text, i, 6);
      assert Rest(text, i)[6] == text[i + 6];
    }
  }

  /** The import at index i, if there is one there, and the index after it. */
  method ImportAt(text: string, i: nat) returns (found: bool, target: string, next: nat)
    requires i < |text|
    ensures found <==> AtImport(AfterWord(text, i), Rest(text, i))
    ensures found ==> i < next && !AfterWord(text, next)
    ensures found ==> ReadTarget(SkipSpace(Rest(text, i)[6..])[1..]) == (target, Rest(text, next))
  {
    found, target, next := false, "", 0;
    AtImportByIndex(text, i);
    if KeywordAt(text, i) {
      found, target, next := QuotedTarget(text, i + 6);
    }
  }

  /** Every import target of a CVL text, in source order. */
  method ImportsInCvl(text: string) returns (out: seq<string>)
    ensures out == Scan(false, text)
  {
    out := [];
    var i, n := 0, |text|;
    assert Rest(text, 0) == text;
    while i < n
      invariant out + Scan(AfterWord(text, i), Rest(text, i)) == Scan(false, text)
      decreases n - i
    {
      var c := text[i];
      RestStep(text, i, 1);
      if c == '"' {
        i := StringEnd(text, i + 1);
      } else if c == '/' && i + 1 < n && text[i + 1] == '/' {
        assert "//" <= Rest(text, i);
        i := LineEnd(text, i);
      } else if c == '/' && i + 1 < n && text[i + 1] == '*' {
        assert "/*" <= Rest(text, i);
        RestStep(text, i, 2);
        i := BlockEnd(text, i + 2);
      } else {
        assert !("//" <= Rest(text, i)) && !("/*" <= Rest(text, i));
        var found, target, next := ImportAt(text, i);
        if found {
          Associative(out, [target], Scan(false, Rest(text, next)));
          out := out + [target];
          i := next;
        } else {
          i := i + 1;
        }
      }
    }
  }
}
