/** On specs printed as top-level items, the parsed ranges are the lines of the rules. */
module RuleDocuments {
  import opened Options
  import opened Text
  import opened Braces
  import opened RuleRanges

  // ----- Texts of rules -----

  predicate AllSpaces(s: string) {
    forall i :: 0 <= i < |s| ==> IsSpace(s[i])
  }

  function AfterNewline(s: string): string {
    if s == "" then "" else if s[0] == '\n' then s[1..] else AfterNewline(s[1..])
  }

  /** A rule: its head, a `filtered` block with what follows it, its body, and the rest of the last line. */
  datatype RuleText =
    | Plain(head: string, body: string, tail: string)
    | Filtered(head: string, filters: string, gap: string, body: string, tail: string)

  ghost predicate WellFormed(r: RuleText) {
    && BraceFree(r.head) && IsBlock(r.body) && BraceFree(r.tail) && '\n' !in r.tail
    && (r.Filtered? ==> IsBlock(r.filters) && BraceFree(r.gap))
  }

  function Print(r: RuleText): string {
    match r
    case Plain(head, body, tail) => head + (body + (tail + "\n"))
    case Filtered(head, filters, gap, body, tail) => head + (filters + (gap + (body + (tail + "\n"))))
  }

  predicate AreLines(ls: seq<string>) {
    forall i :: 0 <= i < |ls| ==> '\n' !in ls[i]
  }

  // ----- Line ends -----

  lemma {:induction false} PrefixAtLineEnd(ls: seq<string>, b: nat)
    requires b <= |ls|
    ensures Cat(ls[..b]) <= Cat(ls)
    ensures b < |ls| ==> |Cat(ls[..b])| < |Cat(ls)|
    ensures 0 < b ==> Cat(ls[..b]) != "" && Cat(ls[..b])[|Cat(ls[..b])| - 1] == '\n'
  {
    assert ls == ls[..b] + ls[b..];
    CatConcat(ls[..b], ls[b..]);
    if 0 < b {
      assert ls[..b] == ls[..b - 1] + [ls[b - 1]];
      CatConcat(ls[..b - 1], [ls[b - 1]]);
      assert Cat([ls[b - 1]]) == ls[b - 1] + "\n" + Cat([]);
    }
  }

  /** Every line break of the text is the end of a line. */
  lemma {:induction false} LineEndAt(ls: seq<string>, n: nat) returns (b: nat)
    requires AreLines(ls) && n < |Cat(ls)| && Cat(ls)[n] == '\n'
    ensures 0 < b <= |ls| && Cat(ls[..b]) == Cat(ls)[..n + 1]
  {
    var first := ls[0] + "\n";
    if n < |first| {
      b := 1;
      assert ls[..1] == [ls[0]] && Cat([ls[0]]) == first + Cat([]);
      assert Cat(ls)[n] == first[n];
    } else {
      b := LineEndAt(ls[1..], n - |first|);
      assert ls[..b + 1][1..] == ls[1..][..b];
      b := b + 1;
    }
  }

  // ----- Where the braces close -----

  lemma OpenIn(a: string, b: string, n: nat)
    requires BraceFree(a) && IsBlock(b) && n <= |a| + |b|
    ensures '{' in (a + b)[..n] <==> n > |a|
    ensures n > |a| ==> (Depth((a + b)[..n]) == 0 <==> n == |a| + |b|)
  {
    OpensAtOnce(b);
    BraceFreeDepth(a);
    if n > |a| {
      assert (a + b)[..n] == a + b[..n - |a|];
      DepthConcat(a, b[..n - |a|]);
      assert (a + b)[..n][|a|] == '{';
      assert b[..|b|] == b;
    } else {
      assert (a + b)[..n] == a[..n];
    }
  }

  /** A brace-free head and a block: closed first at the end of the block. */
  lemma {:induction false} ClosedIn(head: string, block: string, rest: string, n: nat)
    requires BraceFree(head) && IsBlock(block) && n <= |head + (block + rest)|
    ensures var p := (head + (block + rest))[..n];
      n < |head| + |block| ==> !('{' in p && Depth(p) == 0)
    ensures var p := (head + (block + rest))[..n];
      n >= |head| + |block| && BraceFree(p[|head| + |block|..]) ==> '{' in p && Depth(p) == 0
  {
    var t, m := head + (block + rest), |head| + |block|;
    Associative(head, block, rest);
    assert t == head + block + rest;
    if n < m {
      assert t[..n] == (head + block)[..n];
      OpenIn(head, block, n);
    } else {
      var p := t[..n];
      assert p == head + block + p[m..];
      OpenIn(head, block, m);
      assert (head + block)[..m] == head + block;
      assert p[|head|] == block[0];
      OpensAtOnce(block);
      if BraceFree(p[m..]) {
        DepthConcat(head + block, p[m..]);
        BraceFreeDepth(p[m..]);
      }
    }
  }

  lemma FirstCloseIs(lines: seq<string>, b: nat, from: nat)
    requires from <= b <= |lines| && ClosedAfter(lines, b)
    requires forall c :: from <= c < b ==> !ClosedAfter(lines, c)
    ensures FirstClose(lines, from) == Some(b)
  {
  }

  /** A head, a block and a tail without line break are closed exactly after their last line. */
  lemma PlainCloses(ls: seq<string>, after: seq<string>, head: string, body: string, tail: string)
    requires AreLines(ls) && Cat(ls) == head + (body + (tail + "\n"))
    requires BraceFree(head) && IsBlock(body) && BraceFree(tail) && '\n' !in tail
    ensures FirstClose(ls + after, 1) == Some(|ls|)
  {
    var all, t := ls + after, Cat(ls);
    forall c | 1 <= c < |ls|
      ensures !ClosedAfter(all, c)
    {
      PlainIsOpen(ls, head, body, tail, c);
      assert all[..c] == ls[..c];
    }
    ClosedIn(head, body, tail + "\n", |t|);
    assert t[..|t|] == t && t[|head| + |body|..] == tail + "\n";
    assert all[..|ls|] == ls;
    FirstCloseIs(all, |ls|, 1);
  }

  lemma PlainIsOpen(ls: seq<string>, head: string, body: string, tail: string, c: nat)
    requires AreLines(ls) && Cat(ls) == head + (body + (tail + "\n")) && 1 <= c < |ls|
    requires BraceFree(head) && IsBlock(body) && '\n' !in tail
    ensures !('{' in Cat(ls[..c]) && Depth(Cat(ls[..c])) == 0)
  {
    var n, t := |Cat(ls[..c])|, Cat(ls);
    PrefixAtLineEnd(ls, c);
    assert Cat(ls[..c]) == t[..n];
    BreakIsEarly(t, head, body, tail, n - 1);
    ClosedIn(head, body, tail + "\n", n);
  }

  /** A line break other than the last one comes before the end of the block. */
  lemma BreakIsEarly(t: string, head: string, block: string, tail: string, i: nat)
    requires t == head + (block + (tail + "\n")) && block != "" && block[|block| - 1] == '}' && '\n' !in tail
    requires i < |t| - 1 && t[i] == '\n'
    ensures i + 1 < |head| + |block|
  {
    Associative(head, block, tail + "\n");
    if i + 1 >= |head| + |block| {
      NoBreakBeforeEnd(head + block, tail, i);
    }
  }

  lemma NoBreakBeforeEnd(front: string, tail: string, i: nat)
    requires front != "" && front[|front| - 1] == '}' && '\n' !in tail
    requires |front| - 1 <= i < |front| + |tail|
    ensures (front + (tail + "\n"))[i] != '\n'
  {
    var t := front + (tail + "\n");
    if i == |front| - 1 {
      assert t[i] == '}';
    } else {
      assert t[i] == tail[i - |front|];
    }
  }

  // ----- White space before a block -----

  lemma {:induction false} TrimmedSkips(ws: string, rest: string)
    requires AllSpaces(ws)
    ensures TrimmedStart(ws + rest) == TrimmedStart(rest)
  {
    if ws == "" {
      assert ws + rest == rest;
    } else {
      assert (ws + rest)[1..] == ws[1..] + rest && (ws + rest)[0] == ws[0];
      TrimmedSkips(ws[1..], rest);
    }
  }

  lemma BlankLine(line: string)
    requires AllSpaces(line)
    ensures IsBlank(line)
  {
    TrimmedSkips(line, "");
    assert line + "" == line;
  }

  /** The text after white space continues on the first line that is not blank. */
  lemma {:induction false} SkipsBlanks(ls: seq<string>, after: seq<string>, ws: string, rest: string)
    returns (k: nat, indent: string)
    requires AreLines(ls) && Cat(ls) == ws + rest && AllSpaces(ws) && rest != "" && !IsSpace(rest[0])
    ensures k < |ls| && Blanks(ls + after) == k && StartsWith(ls[k], rest[0])
    ensures Cat(ls[k..]) == indent + rest && AllSpaces(indent)
  {
    var all, line := ls + after, ls[0];
    var more := Cat(ls[1..]);
    assert Cat(ls) == line + "\n" + more;
    assert all[0] == line;
    if |line| < |ws| {
      assert ws == line + "\n" + ws[|line| + 1..] by {
        assert (ws + rest)[..|line| + 1] == line + "\n";
      }
      assert forall i :: 0 <= i < |line| ==> line[i] == ws[i];
      BlankLine(line);
      assert more == ws[|line| + 1..] + rest;
      assert all[1..] == ls[1..] + after;
      k, indent := SkipsBlanks(ls[1..], after, ws[|line| + 1..], rest);
      assert ls[1..][k..] == ls[k + 1..];
      k := k + 1;
    } else {
      IndentedLine(line, more, ws, rest);
      k, indent := 0, ws;
      assert ls[0..] == ls;
    }
  }

  lemma IndentedLine(line: string, more: string, ws: string, rest: string)
    requires line + "\n" + more == ws + rest && |ws| <= |line|
    requires AllSpaces(ws) && rest != "" && !IsSpace(rest[0])
    ensures StartsWith(line, rest[0]) && !IsBlank(line)
  {
    var t := line + "\n" + more;
    assert t[|ws|] == rest[0];
    assert line[..|ws|] == t[..|ws|] == ws;
    assert t[|line|] == '\n';
    assert line == ws + line[|ws|..];
    TrimmedSkips(ws, line[|ws|..]);
  }

  // ----- The extent of a rule -----

  /** What follows a rule does not look like another block of it. */
  predicate CleanStart(lines: seq<string>) {
    Blanks(lines) == |lines| || !StartsWith(lines[Blanks(lines)], '{')
  }

  lemma ClosesAtEnd(ls: seq<string>, after: seq<string>)
    requires ls != [] && FirstClose(ls + after, 1) == Some(|ls|) && CleanStart(after)
    ensures Extent(ls + after) == |ls|
  {
    assert (ls + after)[|ls|..] == after;
    assert Blanks(after) < |after| ==> (ls + after)[|ls| + Blanks(after)] == after[Blanks(after)];
  }

  lemma CatNonempty(ls: seq<string>)
    requires Cat(ls) != ""
    ensures ls != []
  {
  }

  lemma PlainExtent(ls: seq<string>, after: seq<string>, r: RuleText)
    requires AreLines(ls) && r.Plain? && WellFormed(r) && Cat(ls) == Print(r) && CleanStart(after)
    ensures ls != [] && Extent(ls + after) == |ls|
  {
    PlainCloses(ls, after, r.head, r.body, r.tail);
    CatNonempty(ls);
    ClosesAtEnd(ls, after);
  }

  /** With no line break between the filters and the body, nothing is closed before the end. */
  lemma SameLineIsOpen(r: RuleText, n: nat)
    requires r.Filtered? && WellFormed(r) && '\n' !in r.gap
    requires 0 < n < |Print(r)| && Print(r)[n - 1] == '\n'
    ensures !('{' in Print(r)[..n] && Depth(Print(r)[..n]) == 0)
  {
    var t, last := Print(r), r.tail + "\n";
    var front := r.head + (r.filters + r.gap);
    assert t == r.head + (r.filters + (r.gap + (r.body + last)));
    assert t == front + (r.body + last);
    BreakIsEarly(t, front, r.body, r.tail, n - 1);
    if n < |r.head| + |r.filters| {
      ClosedIn(r.head, r.filters, r.gap + (r.body + last), n);
    } else {
      BreakAfterGap(r.head + r.filters, r.gap, r.body + last, n - 1);
      assert (r.head + r.filters) + r.gap == front;
      assert t[..n] == front + r.body[..n - |front|];
      DepthConcat(front, r.body[..n - |front|]);
      FrontDepth(r.head, r.filters, r.gap);
    }
  }

  lemma BreakAfterGap(front: string, gap: string, rest: string, i: nat)
    requires front != "" && front[|front| - 1] == '}' && '\n' !in gap
    requires |front| - 1 <= i < |front + (gap + rest)| && (front + (gap + rest))[i] == '\n'
    ensures i >= |front| + |gap|
  {
    var t := front + (gap + rest);
    assert t[|front| - 1] == '}';
    assert forall j :: |front| <= j < |front| + |gap| ==> t[j] == gap[j - |front|];
  }

  lemma FrontDepth(head: string, filters: string, gap: string)
    requires BraceFree(head) && IsBlock(filters) && BraceFree(gap)
    ensures Depth(head + (filters + gap)) == 0
  {
    DepthConcat(head, filters + gap);
    DepthConcat(filters, gap);
    BraceFreeDepth(head);
    BraceFreeDepth(gap);
  }

  lemma WholeIsClosed(r: RuleText)
    requires r.Filtered? && WellFormed(r)
    ensures '{' in Print(r) && Depth(Print(r)) == 0
  {
    var last := r.tail + "\n";
    var front := r.head + (r.filters + r.gap);
    assert Print(r) == front + (r.body + last);
    FrontDepth(r.head, r.filters, r.gap);
    DepthConcat(front, r.body + last);
    DepthConcat(r.body, last);
    BraceFreeDepth(last);
    OpensAtOnce(r.body);
    assert Print(r)[|front|] == '{';
  }

  lemma SameLineIsOpenAfter(ls: seq<string>, r: RuleText, c: nat)
    requires r.Filtered? && WellFormed(r) && Cat(ls) == Print(r) && '\n' !in r.gap && 1 <= c < |ls|
    ensures !ClosedAfter(ls, c)
  {
    PrefixAtLineEnd(ls, c);
    var n := |Cat(ls[..c])|;
    assert Cat(ls[..c]) == Print(r)[..n];
    SameLineIsOpen(r, n);
  }

  lemma SameLineExtent(ls: seq<string>, after: seq<string>, r: RuleText)
    requires r.Filtered? && WellFormed(r) && Cat(ls) == Print(r) && CleanStart(after)
    requires '\n' !in r.gap
    ensures ls != [] && Extent(ls + after) == |ls|
  {
    CatNonempty(ls);
    var all := ls + after;
    forall c | 1 <= c < |ls|
      ensures !ClosedAfter(all, c)
    {
      SameLineIsOpenAfter(ls, r, c);
      assert all[..c] == ls[..c];
    }
    WholeIsClosed(r);
    assert all[..|ls|] == ls;
    FirstCloseIs(all, |ls|, 1);
    ClosesAtEnd(ls, after);
  }

  lemma {:induction false} FirstNewline(s: string)
    requires '\n' in s
    ensures |AfterNewline(s)| < |s|
    ensures var n := |s| - |AfterNewline(s)|;
      s[n..] == AfterNewline(s) && s[n - 1] == '\n' && '\n' !in s[..n - 1]
  {
    if s[0] != '\n' {
      FirstNewline(s[1..]);
      var n := |s| - |AfterNewline(s)|;
      assert s[..n - 1] == [s[0]] + s[1..][..n - 2];
    }
  }

  // ----- A body on a later line than its filters -----

  lemma BreakInGap(gap: string) returns (first: string)
    requires BraceFree(gap) && '\n' in gap
    ensures gap == first + AfterNewline(gap) && BraceFree(first) && BraceFree(AfterNewline(gap))
    ensures first != "" && first[|first| - 1] == '\n' && '\n' !in first[..|first| - 1]
  {
    FirstNewline(gap);
    var n := |gap| - |AfterNewline(gap)|;
    first := gap[..n];
    assert first[..n - 1] == gap[..n - 1];
  }

  /** The first line break after the filters is where all braces are closed first. */
  lemma BrokenCloses(ls: seq<string>, after: seq<string>, r: RuleText) returns (b: nat)
    requires AreLines(ls) && r.Filtered? && WellFormed(r) && Cat(ls) == Print(r) && '\n' in r.gap
    ensures 0 < b < |ls| && FirstClose(ls + after, 1) == Some(b) && BraceFree(AfterNewline(r.gap))
    ensures Cat(ls[b..]) == AfterNewline(r.gap) + (r.body + (r.tail + "\n"))
  {
    var first := BreakInGap(r.gap);
    var rest := AfterNewline(r.gap) + (r.body + (r.tail + "\n"));
    var n := |r.head| + |r.filters| + |first|;
    BrokenText(r, first, rest, n);
    b := LineEndAt(ls, n - 1);
    PrefixRest(ls, b);
    ClosesAtBreak(ls, after, r, first, rest, b, n);
  }

  lemma Middle(a: string, b: string, c: string, d: string)
    ensures (a + (b + (c + d)))[..|a| + |b| + |c|][|a| + |b|..] == c
  {
    assert a + (b + (c + d)) == (a + b) + c + d;
  }

  lemma ClosedWith(t: string, head: string, filters: string, first: string, rest: string, n: nat)
    requires BraceFree(head) && IsBlock(filters) && BraceFree(first)
    requires t == head + (filters + (first + rest)) && n == |head| + |filters| + |first|
    ensures n <= |t| && '{' in t[..n] && Depth(t[..n]) == 0
  {
    Middle(head, filters, first, rest);
    ClosedIn(head, filters, first + rest, n);
  }

  ghost predicate OpenBefore(ls: seq<string>, b: nat)
    requires b <= |ls|
  {
    forall c :: 1 <= c < b ==> !ClosedAfter(ls, c)
  }

  lemma OpenBeforeBreak(ls: seq<string>, r: RuleText, first: string, rest: string, b: nat)
    requires r.Filtered? && WellFormed(r) && Cat(ls) == r.head + (r.filters + (first + rest))
    requires first != "" && '\n' !in first[..|first| - 1]
    requires b <= |ls| && |Cat(ls[..b])| == |r.head| + |r.filters| + |first|
    ensures OpenBefore(ls, b)
  {
    forall c | 1 <= c < b
      ensures !ClosedAfter(ls, c)
    {
      BrokenIsOpen(ls, r, first, rest, b, c);
    }
  }

  lemma ClosesAtBreak(ls: seq<string>, after: seq<string>, r: RuleText, first: string, rest: string, b: nat, n: nat)
    requires r.Filtered? && WellFormed(r) && Cat(ls) == r.head + (r.filters + (first + rest))
    requires first != "" && '\n' !in first[..|first| - 1] && BraceFree(first)
    requires 0 < b <= |ls| && n == |r.head| + |r.filters| + |first| <= |Cat(ls)| && Cat(ls[..b]) == Cat(ls)[..n]
    ensures FirstClose(ls + after, 1) == Some(b)
  {
    OpenBeforeBreak(ls, r, first, rest, b);
    ClosedWith(Cat(ls), r.head, r.filters, first, rest, n);
    assert ClosedAfter(ls, b);
    FirstCloseBefore(ls, after, b);
  }

  lemma FirstCloseBefore(ls: seq<string>, after: seq<string>, b: nat)
    requires 0 < b <= |ls| && ClosedAfter(ls, b) && OpenBefore(ls, b)
    ensures FirstClose(ls + after, 1) == Some(b)
  {
    var all := ls + after;
    forall c | 1 <= c <= b
      ensures ClosedAfter(all, c) == ClosedAfter(ls, c)
    {
      assert all[..c] == ls[..c];
    }
    FirstCloseIs(all, b, 1);
  }

  lemma BrokenText(r: RuleText, first: string, rest: string, n: nat)
    requires r.Filtered? && r.gap == first + AfterNewline(r.gap) && first != "" && first[|first| - 1] == '\n'
    requires rest == AfterNewline(r.gap) + (r.body + (r.tail + "\n")) && n == |r.head| + |r.filters| + |first|
    ensures Print(r) == r.head + (r.filters + (first + rest))
    ensures 0 < n < |Print(r)| && Print(r)[n - 1] == '\n' && Print(r)[n..] == rest
  {
    Associative(first, AfterNewline(r.gap), r.body + (r.tail + "\n"));
    var t := r.head + (r.filters + (first + rest));
    assert t == r.head + r.filters + first + rest;
    assert t[n - 1] == first[|first| - 1];
  }

  lemma PrefixRest(ls: seq<string>, b: nat)
    requires b <= |ls|
    ensures |Cat(ls[..b])| <= |Cat(ls)| && Cat(ls[b..]) == Cat(ls)[|Cat(ls[..b])|..]
    ensures Cat(ls[..b]) != Cat(ls) ==> b < |ls|
  {
    assert ls[..b] + ls[b..] == ls;
    CatConcat(ls[..b], ls[b..]);
  }

  lemma BrokenIsOpen(ls: seq<string>, r: RuleText, first: string, rest: string, b: nat, c: nat)
    requires r.Filtered? && WellFormed(r) && Cat(ls) == r.head + (r.filters + (first + rest))
    requires first != "" && '\n' !in first[..|first| - 1]
    requires 1 <= c < b <= |ls| && |Cat(ls[..b])| == |r.head| + |r.filters| + |first|
    ensures !ClosedAfter(ls, c)
  {
    var n, t := |Cat(ls[..c])|, Cat(ls);
    PrefixAtLineEnd(ls, b);
    PrefixAtLineEnd(ls[..b], c);
    assert ls[..b][..c] == ls[..c];
    PrefixAtLineEnd(ls, c);
    assert Cat(ls[..c]) == t[..n] && t[n - 1] == '\n';
    BreakNotIn(r.head, r.filters, first, rest, n - 1);
    ClosedIn(r.head, r.filters, first + rest, n);
  }

  lemma BreakNotIn(head: string, block: string, first: string, rest: string, i: nat)
    requires block != "" && block[|block| - 1] == '}' && first != "" && '\n' !in first[..|first| - 1]
    requires i < |head| + |block| + |first| - 1 && (head + (block + (first + rest)))[i] == '\n'
    ensures i + 1 < |head| + |block|
  {
    var t, m := head + (block + (first + rest)), |head| + |block|;
    assert t[m - 1] == block[|block| - 1];
    assert forall j :: m <= j < m + |first| - 1 ==> t[j] == first[..|first| - 1][j - m];
  }

  /** What follows the first close decides whether counting goes on. */
  lemma AfterFirstClose(ls: seq<string>, after: seq<string>, b: nat, k: nat, c: char)
    requires 0 < b <= |ls| && FirstClose(ls + after, 1) == Some(b)
    requires k < |ls[b..]| && Blanks(ls[b..] + after) == k && StartsWith(ls[b..][k], c)
    ensures c != '{' ==> Extent(ls + after) == b
    ensures c == '{' && FirstClose(ls[b..][k..] + after, 1) == Some(|ls[b..][k..]|) ==> Extent(ls + after) == |ls|
  {
    var all := ls + after;
    assert all[b..] == ls[b..] + after;
    assert all[b + k] == ls[b..][k] && all[b + k..] == ls[b..][k..] + after;
  }

  lemma SpacesHaveNoBraces(s: string)
    requires AllSpaces(s)
    ensures BraceFree(s)
  {
  }

  lemma SuffixLines(ls: seq<string>, b: nat, k: nat)
    requires AreLines(ls) && b <= |ls| && k <= |ls[b..]|
    ensures AreLines(ls[b..]) && AreLines(ls[b..][k..])
  {
  }

  /** If only white space stands before the body, counting goes on to the end of the body. */
  lemma BrokenExtent(ls: seq<string>, after: seq<string>, r: RuleText)
    requires AreLines(ls) && r.Filtered? && WellFormed(r) && Cat(ls) == Print(r)
    requires '\n' in r.gap && AllSpaces(AfterNewline(r.gap))
    ensures ls != [] && Extent(ls + after) == |ls|
  {
    var b := BrokenCloses(ls, after, r);
    OpensAtOnce(r.body);
    var text := r.body + (r.tail + "\n");
    assert text[0] == '{';
    SuffixLines(ls, b, 0);
    var k, indent := SkipsBlanks(ls[b..], after, AfterNewline(r.gap), text);
    SuffixLines(ls, b, k);
    SpacesHaveNoBraces(indent);
    PlainCloses(ls[b..][k..], after, indent, r.body, r.tail);
    AfterFirstClose(ls, after, b, k, '{');
  }

  lemma {:induction false} FirstWord(s: string) returns (ws: string, word: string)
    requires !AllSpaces(s)
    ensures s == ws + word && AllSpaces(ws) && word != "" && !IsSpace(word[0]) && word[0] in s
  {
    if IsSpace(s[0]) {
      assert forall i :: 0 < i < |s| ==> s[1..][i - 1] == s[i];
      ws, word := FirstWord(s[1..]);
      ws := [s[0]] + ws;
    } else {
      ws, word := "", s;
    }
  }

  lemma CutOffAt(ls: seq<string>, after: seq<string>, b: nat, gap: string, rest: string)
    requires AreLines(ls) && 0 < b < |ls| && FirstClose(ls + after, 1) == Some(b) && BraceFree(gap)
    requires Cat(ls[b..]) == gap + rest && !AllSpaces(gap)
    ensures Extent(ls + after) == b
  {
    var ws, word := FirstWord(gap);
    Associative(ws, word, rest);
    SuffixLines(ls, b, 0);
    assert (word + rest)[0] == word[0];
    var k, _ := SkipsBlanks(ls[b..], after, ws, word + rest);
    AfterFirstClose(ls, after, b, k, word[0]);
  }

  /** Otherwise the rule is cut off after its filters. */
  lemma BrokenCutOff(ls: seq<string>, after: seq<string>, r: RuleText)
    requires AreLines(ls) && r.Filtered? && WellFormed(r) && Cat(ls) == Print(r)
    requires '\n' in r.gap && !AllSpaces(AfterNewline(r.gap))
    ensures ls != [] && Extent(ls + after) < |ls|
  {
    var b := BrokenCloses(ls, after, r);
    CutOffAt(ls, after, b, AfterNewline(r.gap), r.body + (r.tail + "\n"));
  }

  /** After the first line break between filters and body there is only white space. */
  predicate BodyFollows(r: RuleText) {
    r.Plain? || AllSpaces(AfterNewline(r.gap))
  }

  lemma {:induction false} NothingAfterNewline(s: string)
    requires '\n' !in s
    ensures AfterNewline(s) == ""
  {
    if s != "" {
      NothingAfterNewline(s[1..]);
    }
  }

  /** The parsed extent of a rule is its lines, if and only if its body follows its filters. */
  lemma ExtentIsExact(ls: seq<string>, after: seq<string>, r: RuleText)
    requires AreLines(ls) && WellFormed(r) && Cat(ls) == Print(r) && CleanStart(after)
    ensures ls != [] && (Extent(ls + after) == |ls| <==> BodyFollows(r))
  {
    if r.Plain? {
      PlainExtent(ls, after, r);
    } else if '\n' !in r.gap {
      NothingAfterNewline(r.gap);
      SameLineExtent(ls, after, r);
    } else if BodyFollows(r) {
      BrokenExtent(ls, after, r);
    } else {
      BrokenCutOff(ls, after, r);
    }
  }

  // ----- A rule that is cut off -----

  lemma ThreeLines(a: string, b: string, c: string)
    ensures Cat([a, b, c]) == a + "\n" + (b + "\n" + (c + "\n"))
  {
    assert [a, b, c][1..] == [b, c] && [b, c][1..] == [c] && [c][1..] == [];
    assert Cat([c]) == c + "\n" + "";
    assert Cat([b, c]) == b + "\n" + Cat([c]);
  }

  lemma GapOfLine(comment: string)
    requires comment != "" && !IsSpace(comment[0])
    ensures var gap := "\n" + comment + "\n";
      '\n' in gap && !AllSpaces(AfterNewline(gap))
  {
    var gap := "\n" + comment + "\n";
    assert gap[0] == '\n' && gap[1..] == comment + "\n" && gap[1..][0] == comment[0];
  }

  lemma BraceFreeGap(comment: string)
    requires BraceFree(comment)
    ensures BraceFree("\n" + comment + "\n")
  {
  }

  /** A line with anything but white space between filters and body cuts the rule off. */
  lemma CommentCutsRuleOff(head: string, filters: string, comment: string, body: string)
    requires BraceFree(head) && IsBlock(filters) && BraceFree(comment) && IsBlock(body)
    requires AreLines([head + filters, comment, body]) && comment != "" && !IsSpace(comment[0])
    ensures Extent([head + filters, comment, body]) < 3
  {
    var ls, gap := [head + filters, comment, body], "\n" + comment + "\n";
    var r := Filtered(head, filters, gap, body, "");
    ThreeLines(head + filters, comment, body);
    assert Print(r) == head + (filters + (gap + (body + ("" + "\n"))));
    assert Cat(ls) == Print(r);
    GapOfLine(comment);
    BraceFreeGap(comment);
    BrokenCutOff(ls, [], r);
    assert ls + [] == ls;
  }

  lemma BlockOf(inner: string)
    requires BraceFree(inner)
    ensures IsBlock("{" + inner + "}")
  {
    var s := "{" + inner + "}";
    assert s == "{" + (inner + "}");
    DepthConcat("{", inner + "}");
    DepthConcat(inner, "}");
    BraceFreeDepth(inner);
    assert Depth("{") == 1 + Depth("{"[1..]) && Depth("}") == -1 + Depth("}"[1..]);
    forall n | 0 < n < |s|
      ensures Depth(s[..n]) > 0
    {
      assert s[..n] == "{" + inner[..n - 1];
      DepthConcat("{", inner[..n - 1]);
      BraceFreeDepth(inner[..n - 1]);
    }
  }

  /** For example a rule with a comment before its body. */
  lemma CommentedRuleIsCutOff()
    ensures Extent(["rule r filtered " + ("{" + " f " + "}"), "// c", "{" + " " + "}"]) < 3
  {
    BlockOf(" f ");
    BlockOf(" ");
    CommentCutsRuleOff("rule r filtered ", "{" + " f " + "}", "// c", "{" + " " + "}");
  }
}
