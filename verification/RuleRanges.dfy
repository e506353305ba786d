/** The line ranges of the rules of a spec, found by counting braces at line ends. */
module RuleRanges {
  import opened Options
  import opened Text
  import opened Braces

  // ----- Lines -----

  function WordPrefix(s: string): string {
    if s != "" && IsWordChar(s[0]) then [s[0]] + WordPrefix(s[1..]) else ""
  }

  /** The name after the keyword `rule` at the start of a line. */
  function RuleName(line: string): Option<string> {
    var s := TrimmedStart(line);
    if "rule" <= s && |s| > 4 && IsSpace(s[4]) then
      var name := WordPrefix(TrimmedStart(s[4..]));
      if name == "" then None else Some(name)
    else None
  }

  predicate IsBlank(line: string) {
    TrimmedStart(line) == ""
  }

  predicate StartsWith(line: string, c: char) {
    var s := TrimmedStart(line);
    s != "" && s[0] == c
  }

  /** The text of some lines, each with its line break. */
  function Cat(ls: seq<string>): string {
    if ls == [] then "" else ls[0] + "\n" + Cat(ls[1..])
  }

  lemma {:induction false} CatConcat(a: seq<string>, b: seq<string>)
    ensures Cat(a + b) == Cat(a) + Cat(b)
  {
    if a == [] {
      assert a + b == b;
    } else {
      assert (a + b)[1..] == a[1..] + b;
      CatConcat(a[1..], b);
      Associative(a[0] + "\n", Cat(a[1..]), Cat(b));
    }
  }

  // ----- The parser -----

  /** A brace was opened in the first b lines, and all are closed at their end. */
  predicate ClosedAfter(lines: seq<string>, b: nat)
    requires b <= |lines|
  {
    '{' in Cat(lines[..b]) && Depth(Cat(lines[..b])) == 0
  }

  /** The least number of lines, from b on, after which all braces are closed. */
  function FirstClose(lines: seq<string>, b: nat): (r: Option<nat>)
    ensures r.Some? ==> b <= r.value <= |lines| && ClosedAfter(lines, r.value)
    ensures r.Some? ==> forall c :: b <= c < r.value ==> !ClosedAfter(lines, c)
    ensures r.None? ==> forall c :: b <= c <= |lines| ==> !ClosedAfter(lines, c)
    decreases |lines| - b
  {
    if b > |lines| then None
    else if ClosedAfter(lines, b) then Some(b)
    else FirstClose(lines, b + 1)
  }

  /** The number of leading blank lines. */
  function Blanks(lines: seq<string>): (n: nat)
    ensures n <= |lines|
  {
    if lines != [] && IsBlank(lines[0]) then 1 + Blanks(lines[1..]) else 0
  }

  /** How many lines the rule takes that starts at the first of these lines. */
  function Extent(lines: seq<string>): (n: nat)
    requires lines != []
    ensures 1 <= n <= |lines|
  {
    match FirstClose(lines, 1)
    case None => 1
    case Some(b) =>
      var k := b + Blanks(lines[b..]);
      if k < |lines| && StartsWith(lines[k], '{') then
        match FirstClose(lines[k..], 1)
        case None => k + 1
        case Some(c) => k + c
      else b
  }

  datatype Range = Range(name: string, start: int, end: int)

  /** Names and lines of the rules that start at line i or later. */
  function Starts(lines: seq<string>, i: nat): (r: seq<(string, nat)>)
    requires i <= |lines|
    ensures forall k :: 0 <= k < |r| ==> i <= r[k].1 < |lines|
    decreases |lines| - i
  {
    if i == |lines| then []
    else
      (match RuleName(lines[i]) case Some(name) => [(name, i)] case None => []) + Starts(lines, i + 1)
  }

  function RangeAt(lines: seq<string>, start: (string, nat)): Range
    requires start.1 < |lines|
  {
    Range(start.0, start.1, start.1 + Extent(lines[start.1..]) - 1)
  }

  ghost predicate AreRanges(lines: seq<string>, starts: seq<(string, nat)>, ranges: seq<Range>) {
    && |ranges| == |starts|
    && forall k :: 0 <= k < |starts| ==> starts[k].1 < |lines| && ranges[k] == RangeAt(lines, starts[k])
  }

  function Ranges(lines: seq<string>): (ranges: seq<Range>)
    ensures AreRanges(lines, Starts(lines, 0), ranges)
  {
    var starts := Starts(lines, 0);
    seq(|starts|, k requires 0 <= k < |starts| => RangeAt(lines, starts[k]))
  }

  method CountBraces(line: string, before: int, already: bool) returns (count: int, open: bool)
    ensures count == before + Depth(line)
    ensures open == (already || '{' in line)
  {
    count, open := before, already;
    for k := 0 to |line|
      invariant count + Depth(line[k..]) == before + Depth(line)
      invariant open == (already || '{' in line[..k])
    {
      assert line[k..][1..] == line[k + 1..] && line[..k + 1] == line[..k] + [line[k]];
      if line[k] == '{' {
        count, open := count + 1, true;
      } else if line[k] == '}' {
        count := count - 1;
      }
    }
    assert line[..|line|] == line;
  }

  lemma OneMoreLine(lines: seq<string>, b: nat)
    requires b < |lines|
    ensures Depth(Cat(lines[..b + 1])) == Depth(Cat(lines[..b])) + Depth(lines[b])
    ensures '{' in Cat(lines[..b + 1]) <==> '{' in Cat(lines[..b]) || '{' in lines[b]
  {
    assert lines[..b + 1] == lines[..b] + [lines[b]];
    CatConcat(lines[..b], [lines[b]]);
    assert Cat([lines[b]]) == lines[b] + "\n" + Cat([]) == lines[b] + "\n";
    assert Cat(lines[..b + 1]) == Cat(lines[..b]) + (lines[b] + "\n");
    DepthConcat(Cat(lines[..b]), lines[b] + "\n");
    DepthConcat(lines[b], "\n");
    assert Depth("\n") == 0 + Depth("\n"[1..]) == 0;
  }

  method FindClose(lines: seq<string>, from: nat) returns (close: Option<nat>)
    requires from <= |lines|
    ensures close == FirstClose(lines[from..], 1)
  {
    ghost var rest := lines[from..];
    var count, open := 0, false;
    for j := from to |lines|
      invariant count == Depth(Cat(rest[..j - from])) && open == ('{' in Cat(rest[..j - from]))
      invariant FirstClose(rest, 1) == FirstClose(rest, j - from + 1)
    {
      var b := j - from;
      assert rest[b] == lines[j];
      OneMoreLine(rest, b);
      count, open := CountBraces(lines[j], count, open);
      assert (open && count == 0) == ClosedAfter(rest, b + 1);
      if open && count == 0 {
        assert FirstClose(rest, b + 1) == Some(b + 1);
        return Some(b + 1);
      }
    }
    assert FirstClose(rest, |rest| + 1) == None;
    return None;
  }

  method RangeEnd(lines: seq<string>, start: nat) returns (end: nat)
    requires start < |lines|
    ensures end == start + Extent(lines[start..]) - 1
  {
    var close := FindClose(lines, start);
    end := start;
    if close.Some? {
      var next := start + close.value;
      ghost var rest := lines[start..];
      var k := next;
      while k < |lines| && IsBlank(lines[k])
        invariant next <= k <= |lines|
        invariant k - next + Blanks(lines[k..]) == Blanks(lines[next..])
      {
        assert lines[k..][1..] == lines[k + 1..];
        k := k + 1;
      }
      assert rest[close.value..] == lines[next..];
      if k < |lines| && StartsWith(lines[k], '{') {
        assert rest[k - start] == lines[k] && rest[k - start..] == lines[k..];
        var body := FindClose(lines, k);
        end := k;
        if body.Some? {
          end := k + body.value - 1;
        }
      } else {
        end := next - 1;
      }
    }
  }

  lemma NextStart(lines: seq<string>, i: nat)
    requires i < |lines|
    ensures RuleName(lines[i]).Some? ==> Starts(lines, i) == [(RuleName(lines[i]).value, i)] + Starts(lines, i + 1)
    ensures RuleName(lines[i]).None? ==> Starts(lines, i) == Starts(lines, i + 1)
  {
  }

  method FindStarts(lines: seq<string>) returns (starts: seq<(string, nat)>)
    ensures starts == Starts(lines, 0)
  {
    starts := [];
    ghost var whole := Starts(lines, 0);
    ghost var later := whole;
    for i := 0 to |lines|
      invariant later == Starts(lines, i) && starts + later == whole
    {
      var name := RuleName(lines[i]);
      NextStart(lines, i);
      if name.Some? {
        starts := starts + [(name.value, i)];
      }
      later := Starts(lines, i + 1);
    }
  }

  lemma RangesNext(lines: seq<string>, starts: seq<(string, nat)>, k: nat, ranges: seq<Range>, r: Range)
    requires k < |starts| && AreRanges(lines, starts[..k], ranges) && starts[k].1 < |lines|
    requires r == RangeAt(lines, starts[k])
    ensures AreRanges(lines, starts[..k + 1], ranges + [r])
  {
  }

  /** Name, first and last line of every top-level rule. */
  method ParseRuleRanges(lines: seq<string>) returns (ranges: seq<Range>)
    ensures ranges == Ranges(lines)
  {
    var starts := FindStarts(lines);
    ranges := [];
    for k := 0 to |starts|
      invariant AreRanges(lines, starts[..k], ranges)
    {
      var end := RangeEnd(lines, starts[k].1);
      var r := Range(starts[k].0, starts[k].1, end);
      RangesNext(lines, starts, k, ranges, r);
      ranges := ranges + [r];
    }
    assert starts[..|starts|] == starts;
    SameRanges(lines, starts, ranges, Ranges(lines));
  }

  lemma SameRanges(lines: seq<string>, starts: seq<(string, nat)>, ranges: seq<Range>, ranges': seq<Range>)
    requires AreRanges(lines, starts, ranges) && AreRanges(lines, starts, ranges')
    ensures ranges == ranges'
  {
  }
}
