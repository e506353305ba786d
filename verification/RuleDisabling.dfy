/** Commenting out the rules that contain reported errors, and nothing else. */
module RuleDisabling {
  import opened Options
  import opened Text
  import opened RuleRanges
  import opened RuleDocuments

  const PREFIX := "// AUTO-DISABLED (missing implementations): "

  // ----- The edit -----

  predicate IsComment(line: string) {
    var s := TrimmedStart(line);
    |s| >= 2 && s[0] == '/' && s[1] == '/'
  }

  function CommentOut(line: string): string {
    if IsComment(line) then line else PREFIX + line
  }

  predicate Covers(r: Range, i: int) {
    r.start <= i <= r.end
  }

  /** The first range that contains line i. */
  function RangeOf(ranges: seq<Range>, i: int): Option<Range> {
    if ranges == [] then None
    else if Covers(ranges[0], i) then Some(ranges[0])
    else RangeOf(ranges[1..], i)
  }

  ghost predicate IsReported(ranges: seq<Range>, errors: seq<int>, r: Range) {
    exists k {:trigger errors[k]} :: 0 <= k < |errors| && RangeOf(ranges, errors[k]) == Some(r)
  }

  ghost predicate IsDisabled(ranges: seq<Range>, errors: seq<int>, i: int) {
    exists r :: IsReported(ranges, errors, r) && Covers(r, i)
  }

  method FindRange(ranges: seq<Range>, i: int) returns (r: Option<Range>)
    ensures r == RangeOf(ranges, i)
  {
    for k := 0 to |ranges|
      invariant RangeOf(ranges[k..], i) == RangeOf(ranges, i)
    {
      assert ranges[k..][1..] == ranges[k + 1..];
      if Covers(ranges[k], i) {
        return Some(ranges[k]);
      }
    }
    return None;
  }

  method RulesToDisable(ranges: seq<Range>, errors: seq<int>) returns (rules: seq<Range>)
    ensures forall r :: r in rules <==> IsReported(ranges, errors, r)
  {
    rules := [];
    for k := 0 to |errors|
      invariant forall r :: r in rules <==> IsReported(ranges, errors[..k], r)
    {
      var r := FindRange(ranges, errors[k]);
      ReportedNext(ranges, errors, k);
      if r.Some? && r.value !in rules {
        rules := rules + [r.value];
      }
    }
    assert errors[..|errors|] == errors;
  }

  lemma ReportedNext(ranges: seq<Range>, errors: seq<int>, k: nat)
    requires k < |errors|
    ensures var longer := errors[..k + 1];
      forall r :: IsReported(ranges, longer, r) <==> IsReported(ranges, errors[..k], r) || RangeOf(ranges, errors[k]) == Some(r)
  {
    var front, longer := errors[..k], errors[..k + 1];
    forall r
      ensures IsReported(ranges, longer, r) <==> IsReported(ranges, front, r) || RangeOf(ranges, errors[k]) == Some(r)
    {
      if IsReported(ranges, front, r) {
        var j :| 0 <= j < |front| && RangeOf(ranges, front[j]) == Some(r);
        assert longer[j] == front[j];
      }
      if RangeOf(ranges, errors[k]) == Some(r) {
        assert longer[k] == errors[k];
      }
      if IsReported(ranges, longer, r) {
        var j :| 0 <= j < |longer| && RangeOf(ranges, longer[j]) == Some(r);
        assert longer[j] == errors[j] && (j < k ==> front[j] == errors[j]);
      }
    }
  }

  predicate CoveredBy(rules: seq<Range>, i: int) {
    exists k :: 0 <= k < |rules| && Covers(rules[k], i)
  }

  method CommentRange(lines: seq<string>, r: Range) returns (edited: seq<string>)
    requires 0 <= r.start <= r.end < |lines|
    ensures |edited| == |lines|
    ensures forall i :: 0 <= i < |lines| ==> edited[i] == if Covers(r, i) then CommentOut(lines[i]) else lines[i]
  {
    edited := lines;
    for i := r.start to r.end + 1
      invariant |edited| == |lines|
      invariant forall j :: 0 <= j < |lines| ==> edited[j] == if r.start <= j < i then CommentOut(lines[j]) else lines[j]
    {
      if !IsComment(edited[i]) {
        edited := edited[i := PREFIX + edited[i]];
      }
    }
  }

  /** What the edit of some rules leaves of the lines. */
  ghost predicate Commented(lines: seq<string>, rules: seq<Range>, edited: seq<string>) {
    && |edited| == |lines|
    && forall i :: 0 <= i < |lines| ==> edited[i] == if CoveredBy(rules, i) then CommentOut(lines[i]) else lines[i]
  }

  lemma CommentedNext(lines: seq<string>, rules: seq<Range>, k: nat, before: seq<string>, after: seq<string>)
    requires k < |rules| && Commented(lines, rules[..k], before) && |after| == |lines|
    requires forall i :: 0 <= i < |lines| ==>
               after[i] == if Covers(rules[k], i) then CommentOut(before[i]) else before[i]
    ensures Commented(lines, rules[..k + 1], after)
  {
    var longer := rules[..k + 1];
    forall i | 0 <= i < |lines|
      ensures after[i] == if CoveredBy(longer, i) then CommentOut(lines[i]) else lines[i]
    {
      CoveredNext(rules, k, i);
      CommentedOnce(lines[i]);
    }
  }

  method CommentRules(lines: seq<string>, rules: seq<Range>) returns (edited: seq<string>)
    requires forall r :: r in rules ==> 0 <= r.start <= r.end < |lines|
    ensures Commented(lines, rules, edited)
  {
    edited := lines;
    for k := 0 to |rules|
      invariant Commented(lines, rules[..k], edited)
    {
      assert rules[k] in rules;
      ghost var before := edited;
      edited := CommentRange(edited, rules[k]);
      CommentedNext(lines, rules, k, before, edited);
    }
    assert rules[..|rules|] == rules;
  }

  /** Comments out the rules around the error lines, each line at most once. */
  method DisableRules(lines: seq<string>, errors: seq<int>) returns (edited: seq<string>, anyFixed: bool)
    ensures |edited| == |lines|
    ensures forall i :: 0 <= i < |lines| ==>
              edited[i] == if IsDisabled(Ranges(lines), errors, i) then CommentOut(lines[i]) else lines[i]
    ensures anyFixed <==> exists r :: IsReported(Ranges(lines), errors, r)
  {
    var ranges := ParseRuleRanges(lines);
    var rules := RulesToDisable(ranges, errors);
    forall r | r in rules
      ensures 0 <= r.start <= r.end < |lines|
    {
      ReportedIsInside(lines, errors, r);
    }
    edited := CommentRules(lines, rules);
    anyFixed := rules != [];
    assert anyFixed ==> rules[0] in rules;
    forall i | 0 <= i < |lines|
      ensures CoveredBy(rules, i) <==> IsDisabled(ranges, errors, i)
    {
      CoveredIsDisabled(ranges, errors, rules, i);
    }
  }

  lemma CoveredNext(rules: seq<Range>, k: nat, i: int)
    requires k < |rules|
    ensures CoveredBy(rules[..k + 1], i) <==> CoveredBy(rules[..k], i) || Covers(rules[k], i)
  {
    var front, longer := rules[..k], rules[..k + 1];
    assert forall j :: 0 <= j < k ==> longer[j] == front[j];
    assert longer[k] == rules[k];
  }

  lemma CoveredIsDisabled(ranges: seq<Range>, errors: seq<int>, rules: seq<Range>, i: int)
    requires forall r :: r in rules <==> IsReported(ranges, errors, r)
    ensures CoveredBy(rules, i) <==> IsDisabled(ranges, errors, i)
  {
    if CoveredBy(rules, i) {
      var k :| 0 <= k < |rules| && Covers(rules[k], i);
      assert rules[k] in rules;
    }
    if IsDisabled(ranges, errors, i) {
      var r :| IsReported(ranges, errors, r) && Covers(r, i);
      assert r in rules;
    }
  }

  lemma CommentedOnce(line: string)
    ensures IsComment(CommentOut(line)) && CommentOut(CommentOut(line)) == CommentOut(line)
  {
    if !IsComment(line) {
      SlashesStart(PREFIX, line);
    }
  }

  lemma SlashesStart(prefix: string, line: string)
    requires |prefix| >= 2 && prefix[0] == '/' && prefix[1] == '/'
    ensures IsComment(prefix + line) && TrimmedStart(prefix + line) == prefix + line
  {
    assert (prefix + line)[0] == '/' && (prefix + line)[1] == '/';
  }

  lemma {:induction false} RangeOfIsListed(ranges: seq<Range>, i: int)
    ensures RangeOf(ranges, i).Some? ==> RangeOf(ranges, i).value in ranges
  {
    if ranges != [] {
      RangeOfIsListed(ranges[1..], i);
    }
  }

  lemma RangesAreInside(lines: seq<string>, r: Range)
    requires r in Ranges(lines)
    ensures 0 <= r.start <= r.end < |lines|
  {
    var k :| 0 <= k < |Ranges(lines)| && Ranges(lines)[k] == r;
    assert r == RangeAt(lines, Starts(lines, 0)[k]);
  }

  lemma ReportedIsInside(lines: seq<string>, errors: seq<int>, r: Range)
    requires IsReported(Ranges(lines), errors, r)
    ensures 0 <= r.start <= r.end < |lines|
  {
    var k :| 0 <= k < |errors| && RangeOf(Ranges(lines), errors[k]) == Some(r);
    RangeOfIsListed(Ranges(lines), errors[k]);
    RangesAreInside(lines, r);
  }

  // ----- Specs printed as top-level items -----

  datatype Item = Rule(name: string, lines: seq<string>, text: RuleText) | Other(lines: seq<string>)

  predicate NoRuleStarts(lines: seq<string>) {
    forall i :: 0 <= i < |lines| ==> RuleName(lines[i]) == None
  }

  /** A rule item starts with its only line that starts a rule, and no other item has such a line. */
  predicate Heads(item: Item) {
    match item
    case Rule(name, lines, _) => lines != [] && RuleName(lines[0]) == Some(name) && NoRuleStarts(lines[1..])
    case Other(lines) => NoRuleStarts(lines)
  }

  ghost predicate IsPrinted(lines: seq<string>, text: RuleText) {
    AreLines(lines) && Cat(lines) == Print(text) && WellFormed(text) && BodyFollows(text)
  }

  ghost predicate ItemOk(item: Item) {
    && Heads(item)
    && match item
       case Rule(_, lines, text) => IsPrinted(lines, text)
       case Other(lines) => CleanStart(lines)
  }

  ghost predicate AllOk(items: seq<Item>) {
    forall i {:trigger ItemOk(items[i])} :: 0 <= i < |items| ==> ItemOk(items[i])
  }

  lemma OkParts(items: seq<Item>)
    requires AllOk(items) && items != []
    ensures ItemOk(items[0]) && AllOk(items[1..])
  {
    forall i | 0 <= i < |items[1..]|
      ensures ItemOk(items[1..][i])
    {
      assert ItemOk(items[i + 1]);
    }
  }

  lemma OkCons(item: Item, items: seq<Item>)
    requires ItemOk(item) && AllOk(items)
    ensures AllOk([item] + items)
  {
    var all := [item] + items;
    forall i | 0 <= i < |all|
      ensures ItemOk(all[i])
    {
      assert i > 0 ==> ItemOk(items[i - 1]);
    }
  }

  function DocLines(items: seq<Item>): seq<string> {
    if items == [] then [] else items[0].lines + DocLines(items[1..])
  }

  /** The lines of each rule, when the first item starts at line `at`. */
  function Extents(items: seq<Item>, at: nat): seq<Range> {
    if items == [] then []
    else
      var n := |items[0].lines|;
      (if items[0].Rule? then [Range(items[0].name, at, at + n - 1)] else []) + Extents(items[1..], at + n)
  }

  lemma RuleLineStarts(line: string)
    requires RuleName(line).Some?
    ensures !IsBlank(line) && !StartsWith(line, '{') && !IsComment(line)
  {
    assert TrimmedStart(line)[0] == 'r';
  }

  lemma {:induction false} BlanksConcat(a: seq<string>, b: seq<string>)
    ensures Blanks(a + b) == if Blanks(a) == |a| then |a| + Blanks(b) else Blanks(a)
  {
    if a == [] {
      assert a + b == b;
    } else {
      assert (a + b)[1..] == a[1..] + b;
      BlanksConcat(a[1..], b);
    }
  }

  lemma CleanConcat(a: seq<string>, b: seq<string>)
    requires CleanStart(a) && CleanStart(b)
    ensures CleanStart(a + b)
  {
    BlanksConcat(a, b);
  }

  lemma ItemStartsCleanly(item: Item, after: seq<string>)
    requires ItemOk(item) && CleanStart(after)
    ensures CleanStart(item.lines + after)
  {
    if item.Rule? {
      RuleLineStarts(item.lines[0]);
    }
    CleanConcat(item.lines, after);
  }

  lemma {:induction false} DocStartsCleanly(items: seq<Item>)
    requires AllOk(items)
    ensures CleanStart(DocLines(items))
  {
    if items != [] {
      OkParts(items);
      DocStartsCleanly(items[1..]);
      ItemStartsCleanly(items[0], DocLines(items[1..]));
    }
  }

  lemma {:induction false} NoRulesBetween(lines: seq<string>, i: nat, j: nat)
    requires i <= j <= |lines| && forall k :: i <= k < j ==> RuleName(lines[k]) == None
    ensures Starts(lines, i) == Starts(lines, j)
    decreases j - i
  {
    if i < j {
      NoRulesBetween(lines, i + 1, j);
    }
  }

  /** Name and first line of each rule, when the first item starts at line `at`. */
  function ItemStarts(items: seq<Item>, at: nat): seq<(string, nat)> {
    if items == [] then []
    else (if items[0].Rule? then [(items[0].name, at)] else []) + ItemStarts(items[1..], at + |items[0].lines|)
  }

  lemma ItemStart(lines: seq<string>, item: Item, at: nat)
    requires at + |item.lines| <= |lines| && lines[at..at + |item.lines|] == item.lines && Heads(item)
    ensures Starts(lines, at) == (if item.Rule? then [(item.name, at)] else []) + Starts(lines, at + |item.lines|)
  {
    var ls, next := item.lines, at + |item.lines|;
    forall k | at <= k < next && (item.Rule? ==> k > at)
      ensures RuleName(lines[k]) == None
    {
      assert lines[k] == ls[k - at];
      if item.Rule? {
        assert ls[k - at] == ls[1..][k - at - 1];
      }
    }
    if item.Rule? {
      NoRulesBetween(lines, at + 1, next);
      assert lines[at] == ls[0];
    } else {
      NoRulesBetween(lines, at, next);
    }
  }

  lemma SplitLines(lines: seq<string>, ls: seq<string>, after: seq<string>, at: nat)
    requires at <= |lines| && lines[at..] == ls + after
    ensures at + |ls| <= |lines| && lines[at..at + |ls|] == ls && lines[at + |ls|..] == after
  {
    assert lines[at..at + |ls|] == lines[at..][..|ls|];
    assert lines[at + |ls|..] == lines[at..][|ls|..];
  }

  lemma NextItem(lines: seq<string>, items: seq<Item>, at: nat)
    requires items != [] && at <= |lines| && lines[at..] == DocLines(items) && AllOk(items)
    ensures var next := at + |items[0].lines|;
      next <= |lines| && lines[next..] == DocLines(items[1..]) && AllOk(items[1..])
  {
    OkParts(items);
    SplitLines(lines, items[0].lines, DocLines(items[1..]), at);
  }

  lemma FirstStart(lines: seq<string>, items: seq<Item>, at: nat)
    requires items != [] && at <= |lines| && lines[at..] == DocLines(items) && AllOk(items)
    ensures var item, next := items[0], at + |items[0].lines|;
      && next <= |lines|
      && Starts(lines, at) == (if item.Rule? then [(item.name, at)] else []) + Starts(lines, next)
  {
    OkParts(items);
    SplitLines(lines, items[0].lines, DocLines(items[1..]), at);
    ItemStart(lines, items[0], at);
  }

  /** Offset by offset, `starts` lists the item there and goes on behind it. */
  ghost predicate ListsItems(starts: int -> seq<(string, nat)>, items: seq<Item>, at: nat) {
    if items == [] then starts(at) == []
    else
      var next := at + |items[0].lines|;
      && starts(at) == (if items[0].Rule? then [(items[0].name, at)] else []) + starts(next)
      && ListsItems(starts, items[1..], next)
  }

  lemma {:induction false} ListedStarts(starts: int -> seq<(string, nat)>, items: seq<Item>, at: nat)
    requires ListsItems(starts, items, at)
    ensures starts(at) == ItemStarts(items, at)
    decreases |items|
  {
    if items != [] {
      ListedStarts(starts, items[1..], at + |items[0].lines|);
    }
  }

  function StartsIn(lines: seq<string>): int -> seq<(string, nat)> {
    i => if 0 <= i <= |lines| then Starts(lines, i) else []
  }

  lemma {:induction false} StartsAreListed(lines: seq<string>, items: seq<Item>, at: nat)
    requires at <= |lines| && lines[at..] == DocLines(items) && AllOk(items)
    ensures ListsItems(StartsIn(lines), items, at)
    decreases |items|
  {
    if items == [] {
      assert at == |lines|;
    } else {
      NextItem(lines, items, at);
      FirstStart(lines, items, at);
      StartsAreListed(lines, items[1..], at + |items[0].lines|);
    }
  }

  lemma StartsFrom(lines: seq<string>, items: seq<Item>, at: nat)
    requires at <= |lines| && lines[at..] == DocLines(items) && AllOk(items)
    ensures Starts(lines, at) == ItemStarts(items, at)
  {
    StartsAreListed(lines, items, at);
    ListedStarts(StartsIn(lines), items, at);
  }

  lemma ItemExtent(item: Item, after: seq<string>)
    requires ItemOk(item) && item.Rule? && CleanStart(after)
    ensures item.lines != [] && Extent(item.lines + after) == |item.lines|
  {
    ExtentIsExact(item.lines, after, item.text);
  }

  lemma FirstRange(lines: seq<string>, items: seq<Item>, at: nat)
    requires items != [] && at <= |lines| && lines[at..] == DocLines(items) && AllOk(items)
    ensures var item := items[0];
      item.Rule? ==> at < |lines| && RangeAt(lines, (item.name, at)) == Range(item.name, at, at + |item.lines| - 1)
  {
    OkParts(items);
    DocStartsCleanly(items[1..]);
    if items[0].Rule? {
      ItemExtent(items[0], DocLines(items[1..]));
    }
  }

  lemma ItemStartsCons(items: seq<Item>, at: nat)
    requires items != []
    ensures var later := ItemStarts(items[1..], at + |items[0].lines|);
      ItemStarts(items, at) == if items[0].Rule? then [(items[0].name, at)] + later else later
  {
  }

  lemma RangesStep(lines: seq<string>, items: seq<Item>, at: nat)
    requires items != [] && AreRanges(lines, ItemStarts(items[1..], at + |items[0].lines|), Extents(items[1..], at + |items[0].lines|))
    requires items[0].Rule? ==>
               at < |lines| && RangeAt(lines, (items[0].name, at)) == Range(items[0].name, at, at + |items[0].lines| - 1)
    ensures AreRanges(lines, ItemStarts(items, at), Extents(items, at))
  {
    var next := at + |items[0].lines|;
    ItemStartsCons(items, at);
    ExtentsCons(items, at);
    if items[0].Rule? {
      OneMoreRange(lines, (items[0].name, at), Range(items[0].name, at, next - 1),
                   ItemStarts(items[1..], next), Extents(items[1..], next));
    }
  }

  /** At each rule's start the parsed range is the rule's. */
  lemma {:induction false} RangesFrom(lines: seq<string>, items: seq<Item>, at: nat)
    requires at <= |lines| && lines[at..] == DocLines(items) && AllOk(items)
    ensures AreRanges(lines, ItemStarts(items, at), Extents(items, at))
    decreases |items|
  {
    if items != [] {
      NextItem(lines, items, at);
      RangesFrom(lines, items[1..], at + |items[0].lines|);
      FirstRange(lines, items, at);
      RangesStep(lines, items, at);
    }
  }

  lemma OneMoreRange(lines: seq<string>, start: (string, nat), r: Range, starts: seq<(string, nat)>, ranges: seq<Range>)
    requires start.1 < |lines| && r == RangeAt(lines, start) && AreRanges(lines, starts, ranges)
    ensures AreRanges(lines, [start] + starts, [r] + ranges)
  {
  }

  /** The parser finds exactly the rules, with exactly their lines. */
  lemma ParsedRangesAreRules(items: seq<Item>)
    requires AllOk(items)
    ensures Ranges(DocLines(items)) == Extents(items, 0)
  {
    var lines := DocLines(items);
    assert lines[0..] == lines;
    StartsFrom(lines, items, 0);
    RangesFrom(lines, items, 0);
    SameRanges(lines, Starts(lines, 0), Ranges(lines), Extents(items, 0));
  }

  // ----- Disabling on items -----

  predicate HasError(errors: seq<int>, at: nat, n: nat) {
    exists k :: 0 <= k < |errors| && at <= errors[k] < at + n
  }

  function CommentAll(lines: seq<string>): seq<string> {
    seq(|lines|, i requires 0 <= i < |lines| => CommentOut(lines[i]))
  }

  function DisabledItem(item: Item, errors: seq<int>, at: nat): Item {
    if item.Rule? && HasError(errors, at, |item.lines|) then Other(CommentAll(item.lines)) else item
  }

  function DisabledItems(items: seq<Item>, errors: seq<int>, at: nat): seq<Item> {
    if items == [] then []
    else [DisabledItem(items[0], errors, at)] + DisabledItems(items[1..], errors, at + |items[0].lines|)
  }

  lemma CommentsStartNoRule(line: string)
    ensures RuleName(CommentOut(line)) == None && StartsWith(CommentOut(line), '/')
  {
    if !IsComment(line) {
      SlashesStart(PREFIX, line);
    }
    CommentIsNoRule(CommentOut(line));
  }

  lemma CommentIsNoRule(line: string)
    requires TrimmedStart(line) != "" && TrimmedStart(line)[0] == '/'
    ensures RuleName(line) == None
  {
  }

  lemma DisabledItemOk(item: Item, errors: seq<int>, at: nat)
    requires ItemOk(item)
    ensures ItemOk(DisabledItem(item, errors, at)) && |DisabledItem(item, errors, at).lines| == |item.lines|
  {
    if item.Rule? && HasError(errors, at, |item.lines|) {
      var lines := CommentAll(item.lines);
      forall i | 0 <= i < |lines|
        ensures RuleName(lines[i]) == None && StartsWith(lines[i], '/')
      {
        CommentsStartNoRule(item.lines[i]);
      }
      assert StartsWith(lines[0], '/');
    }
  }

  lemma DisabledCons(items: seq<Item>, errors: seq<int>, at: nat)
    requires items != []
    ensures DisabledItems(items, errors, at) != []
    ensures DisabledItems(items, errors, at)[0] == DisabledItem(items[0], errors, at)
    ensures DisabledItems(items, errors, at)[1..] == DisabledItems(items[1..], errors, at + |items[0].lines|)
  {
  }

  lemma {:induction false} DisabledItemsOk(items: seq<Item>, errors: seq<int>, at: nat)
    requires AllOk(items)
    ensures AllOk(DisabledItems(items, errors, at))
  {
    if items != [] {
      OkParts(items);
      DisabledItemOk(items[0], errors, at);
      DisabledItemsOk(items[1..], errors, at + |items[0].lines|);
      OkCons(DisabledItem(items[0], errors, at), DisabledItems(items[1..], errors, at + |items[0].lines|));
    }
  }

  lemma {:induction false} ExtentsFrom(items: seq<Item>, at: nat, r: Range)
    requires r in Extents(items, at)
    ensures at <= r.start
  {
    var n := |items[0].lines|;
    if r in Extents(items[1..], at + n) {
      ExtentsFrom(items[1..], at + n, r);
    }
  }

  lemma {:induction false} RangeOfCovers(ranges: seq<Range>, i: int, r: Range)
    requires RangeOf(ranges, i) == Some(r)
    ensures r in ranges && Covers(r, i)
  {
    if !Covers(ranges[0], i) {
      RangeOfCovers(ranges[1..], i, r);
    }
  }

  /** Whether a line after the first item is disabled depends on the other items only. */
  lemma DisabledLater(items: seq<Item>, errors: seq<int>, at: nat, i: int)
    requires items != [] && i >= at + |items[0].lines|
    ensures IsDisabled(Extents(items, at), errors, i)
       <==> IsDisabled(Extents(items[1..], at + |items[0].lines|), errors, i)
  {
    var all, later := Extents(items, at), Extents(items[1..], at + |items[0].lines|);
    forall r | Covers(r, i)
      ensures IsReported(all, errors, r) <==> IsReported(later, errors, r)
    {
      forall e: int
        ensures RangeOf(all, e) == Some(r) <==> RangeOf(later, e) == Some(r)
      {
        RangeOfLater(items, at, e, r, i);
      }
      SameReports(all, later, errors, r);
    }
  }

  lemma SameReports(ranges: seq<Range>, ranges': seq<Range>, errors: seq<int>, r: Range)
    requires forall e: int :: RangeOf(ranges, e) == Some(r) <==> RangeOf(ranges', e) == Some(r)
    ensures IsReported(ranges, errors, r) <==> IsReported(ranges', errors, r)
  {
    if IsReported(ranges, errors, r) {
      var k :| 0 <= k < |errors| && RangeOf(ranges, errors[k]) == Some(r);
      assert RangeOf(ranges', errors[k]) == Some(r);
    }
    if IsReported(ranges', errors, r) {
      var k :| 0 <= k < |errors| && RangeOf(ranges', errors[k]) == Some(r);
      assert RangeOf(ranges, errors[k]) == Some(r);
    }
  }

  lemma RangeOfLater(items: seq<Item>, at: nat, e: int, r: Range, i: int)
    requires items != [] && i >= at + |items[0].lines| && Covers(r, i)
    ensures RangeOf(Extents(items, at), e) == Some(r)
       <==> RangeOf(Extents(items[1..], at + |items[0].lines|), e) == Some(r)
  {
    var later := Extents(items[1..], at + |items[0].lines|);
    if RangeOf(later, e) == Some(r) {
      RangeOfCovers(later, e, r);
      ExtentsFrom(items[1..], at + |items[0].lines|, r);
    }
    if items[0].Rule? {
      assert Extents(items, at)[1..] == later;
    } else {
      assert Extents(items, at) == later;
    }
  }

  lemma FirstOrLater(items: seq<Item>, at: nat, r: Range)
    requires items != [] && r in Extents(items, at)
    ensures r in Extents(items[1..], at + |items[0].lines|)
         || (items[0].Rule? && r == Range(items[0].name, at, at + |items[0].lines| - 1))
  {
    ExtentsCons(items, at);
  }

  lemma FirstIsCovered(items: seq<Item>, at: nat, r: Range, e: int, i: int)
    requires items != [] && at <= i < at + |items[0].lines|
    requires r in Extents(items, at) && Covers(r, e) && Covers(r, i)
    ensures items[0].Rule? && at <= e < at + |items[0].lines|
  {
    FirstOrLater(items, at, r);
    if r in Extents(items[1..], at + |items[0].lines|) {
      ExtentsFrom(items[1..], at + |items[0].lines|, r);
    }
  }

  lemma ReportedFirstHasError(items: seq<Item>, errors: seq<int>, at: nat, i: int, r: Range)
    requires items != [] && at <= i < at + |items[0].lines|
    requires IsReported(Extents(items, at), errors, r) && Covers(r, i)
    ensures items[0].Rule? && HasError(errors, at, |items[0].lines|)
  {
    var k :| 0 <= k < |errors| && RangeOf(Extents(items, at), errors[k]) == Some(r);
    RangeOfCovers(Extents(items, at), errors[k], r);
    FirstIsCovered(items, at, r, errors[k], i);
  }

  lemma ErrorReportsFirst(items: seq<Item>, errors: seq<int>, at: nat)
    requires items != [] && items[0].Rule? && HasError(errors, at, |items[0].lines|)
    ensures IsReported(Extents(items, at), errors, Range(items[0].name, at, at + |items[0].lines| - 1))
  {
    var k :| 0 <= k < |errors| && at <= errors[k] < at + |items[0].lines|;
    ExtentsCons(items, at);
    assert RangeOf(Extents(items, at), errors[k]) == Some(Range(items[0].name, at, at + |items[0].lines| - 1));
  }

  /** A line of the first item is disabled when that item is a rule with an error. */
  lemma DisabledFirst(items: seq<Item>, errors: seq<int>, at: nat, i: int)
    requires items != [] && at <= i < at + |items[0].lines|
    ensures IsDisabled(Extents(items, at), errors, i) <==> items[0].Rule? && HasError(errors, at, |items[0].lines|)
  {
    if IsDisabled(Extents(items, at), errors, i) {
      var r :| IsReported(Extents(items, at), errors, r) && Covers(r, i);
      ReportedFirstHasError(items, errors, at, i, r);
    }
    if items[0].Rule? && HasError(errors, at, |items[0].lines|) {
      ErrorReportsFirst(items, errors, at);
      assert Covers(Range(items[0].name, at, at + |items[0].lines| - 1), i);
    }
  }

  lemma DisabledItemLine(item: Item, errors: seq<int>, at: nat, i: nat)
    requires i < |item.lines|
    ensures |DisabledItem(item, errors, at).lines| == |item.lines|
    ensures DisabledItem(item, errors, at).lines[i]
         == if item.Rule? && HasError(errors, at, |item.lines|) then CommentOut(item.lines[i]) else item.lines[i]
  {
  }

  lemma LineOf(items: seq<Item>, i: nat)
    requires items != [] && i < |DocLines(items)|
    ensures i < |items[0].lines| ==> DocLines(items)[i] == items[0].lines[i]
    ensures i >= |items[0].lines| ==> var j := i - |items[0].lines|;
      j < |DocLines(items[1..])| && DocLines(items)[i] == DocLines(items[1..])[j]
  {
  }

  /** The line as it is after disabling. */
  ghost predicate LineDone(items: seq<Item>, errors: seq<int>, at: nat, i: nat)
    requires i < |DocLines(items)| == |DocLines(DisabledItems(items, errors, at))|
  {
    DocLines(DisabledItems(items, errors, at))[i]
    == if IsDisabled(Extents(items, at), errors, at + i) then CommentOut(DocLines(items)[i]) else DocLines(items)[i]
  }

  lemma FirstLineDone(items: seq<Item>, errors: seq<int>, at: nat, i: nat)
    requires items != [] && i < |items[0].lines| && i < |DocLines(items)| == |DocLines(DisabledItems(items, errors, at))|
    ensures LineDone(items, errors, at, i)
  {
    DisabledCons(items, errors, at);
    LineOf(items, i);
    LineOf(DisabledItems(items, errors, at), i);
    DisabledFirst(items, errors, at, at + i);
    DisabledItemLine(items[0], errors, at, i);
  }

  lemma LaterLineDone(items: seq<Item>, errors: seq<int>, at: nat, i: nat)
    requires items != [] && |items[0].lines| <= i < |DocLines(items)| == |DocLines(DisabledItems(items, errors, at))|
    requires var n := |items[0].lines|;
      && i - n < |DocLines(items[1..])| == |DocLines(DisabledItems(items[1..], errors, at + n))|
      && LineDone(items[1..], errors, at + n, i - n)
    ensures LineDone(items, errors, at, i)
  {
    DisabledCons(items, errors, at);
    SameItemLength(items[0], errors, at);
    LineOf(items, i);
    LineOf(DisabledItems(items, errors, at), i);
    DisabledLater(items, errors, at, at + i);
  }

  lemma {:induction false} DisabledLine(items: seq<Item>, errors: seq<int>, at: nat, i: nat)
    requires i < |DocLines(items)|
    ensures |DocLines(DisabledItems(items, errors, at))| == |DocLines(items)| && LineDone(items, errors, at, i)
    decreases |items|
  {
    SameLength(items, errors, at);
    var n := |items[0].lines|;
    if i < n {
      FirstLineDone(items, errors, at, i);
    } else {
      LineOf(items, i);
      DisabledLine(items[1..], errors, at + n, i - n);
      LaterLineDone(items, errors, at, i);
    }
  }

  lemma SameItemLength(item: Item, errors: seq<int>, at: nat)
    ensures |DisabledItem(item, errors, at).lines| == |item.lines|
  {
  }

  lemma {:induction false} SameLength(items: seq<Item>, errors: seq<int>, at: nat)
    ensures |DocLines(DisabledItems(items, errors, at))| == |DocLines(items)|
  {
    if items != [] {
      SameLength(items[1..], errors, at + |items[0].lines|);
      DisabledCons(items, errors, at);
      SameItemLength(items[0], errors, at);
    }
  }

  /** The ranges without any error line. */
  function Clean(ranges: seq<Range>, errors: seq<int>): seq<Range> {
    if ranges == [] then []
    else
      (if exists k :: 0 <= k < |errors| && Covers(ranges[0], errors[k]) then [] else [ranges[0]])
      + Clean(ranges[1..], errors)
  }

  lemma ErrorCovered(errors: seq<int>, r: Range, at: nat, n: nat)
    requires r.start == at && r.end == at + n - 1
    ensures HasError(errors, at, n) <==> exists k :: 0 <= k < |errors| && Covers(r, errors[k])
  {
  }

  lemma CleanCons(r: Range, later: seq<Range>, errors: seq<int>, at: nat, n: nat)
    requires r.start == at && r.end == at + n - 1
    ensures Clean([r] + later, errors) == (if HasError(errors, at, n) then [] else [r]) + Clean(later, errors)
  {
    ErrorCovered(errors, r, at, n);
    assert ([r] + later)[1..] == later;
  }

  lemma ExtentsCons(items: seq<Item>, at: nat)
    requires items != []
    ensures var n, later := |items[0].lines|, Extents(items[1..], at + |items[0].lines|);
      Extents(items, at) == if items[0].Rule? then [Range(items[0].name, at, at + n - 1)] + later else later
  {
  }

  lemma DisabledExtents(items: seq<Item>, errors: seq<int>, at: nat)
    requires items != []
    ensures var n := |items[0].lines|;
      var later := Extents(DisabledItems(items[1..], errors, at + n), at + n);
      Extents(DisabledItems(items, errors, at), at)
      == if items[0].Rule? && !HasError(errors, at, n) then [Range(items[0].name, at, at + n - 1)] + later else later
  {
    DisabledCons(items, errors, at);
    SameItemLength(items[0], errors, at);
    ExtentsCons(DisabledItems(items, errors, at), at);
  }

  lemma CleanFirst(items: seq<Item>, errors: seq<int>, at: nat)
    requires items != []
    ensures var n := |items[0].lines|;
      var later := Clean(Extents(items[1..], at + n), errors);
      Clean(Extents(items, at), errors)
      == if items[0].Rule? && !HasError(errors, at, n) then [Range(items[0].name, at, at + n - 1)] + later else later
  {
    var n := |items[0].lines|;
    ExtentsCons(items, at);
    if items[0].Rule? {
      CleanCons(Range(items[0].name, at, at + n - 1), Extents(items[1..], at + n), errors, at, n);
    }
  }

  lemma {:induction false} CleanExtents(items: seq<Item>, errors: seq<int>, at: nat)
    ensures Extents(DisabledItems(items, errors, at), at) == Clean(Extents(items, at), errors)
    decreases |items|
  {
    if items != [] {
      CleanExtents(items[1..], errors, at + |items[0].lines|);
      DisabledExtents(items, errors, at);
      CleanFirst(items, errors, at);
    }
  }

  /**
   * Disabling comments out the lines of the rules with errors and leaves all other items alone;
   * what can still be parsed afterwards are exactly the other rules, on the same lines.
   */
  lemma DisablingIsExact(items: seq<Item>, errors: seq<int>, edited: seq<string>)
    requires AllOk(items) && |edited| == |DocLines(items)|
    requires forall i :: 0 <= i < |edited| ==>
               edited[i] == if IsDisabled(Ranges(DocLines(items)), errors, i)
                            then CommentOut(DocLines(items)[i]) else DocLines(items)[i]
    ensures edited == DocLines(DisabledItems(items, errors, 0))
    ensures Ranges(edited) == Clean(Extents(items, 0), errors)
  {
    ParsedRangesAreRules(items);
    var done := DisabledItems(items, errors, 0);
    SameLength(items, errors, 0);
    forall i | 0 <= i < |edited|
      ensures edited[i] == DocLines(done)[i]
    {
      DisabledLine(items, errors, 0, i);
    }
    assert edited == DocLines(done);
    DisabledItemsOk(items, errors, 0);
    ParsedRangesAreRules(done);
    CleanExtents(items, errors, 0);
  }
}
