/** Commenting out the NONDET summary entries in the methods blocks of a spec. */
module NondetEntries {
  import opened Options
  import opened Text
  import opened Characters
  import opened Braces

  const PREFIX := "// IV-DISABLED: "

  // ----- Lines -----

  predicate StartsBlock(line: string) {
    "methods" <= TrimmedStart(line) && '{' in line
  }

  predicate StartsEntry(line: string) {
    "function" <= TrimmedStart(line)
  }

  predicate EndsNondet(line: string) {
    EndsWith(TrimmedEnd(line), "NONDET;")
  }

  /** The number of lines up to the first one with a semicolon. */
  function EntryLength(lines: seq<string>): (n: Option<nat>)
    ensures n.Some? ==> 0 < n.value <= |lines|
  {
    if lines == [] then None
    else if ';' in lines[0] then Some(1)
    else
      match EntryLength(lines[1..])
      case Some(n) => Some(n + 1)
      case None => None
  }

  function Disabled(lines: seq<string>): seq<string> {
    if lines == [] then [] else [PREFIX + lines[0]] + Disabled(lines[1..])
  }

  /** The length of the NONDET entry that starts here, if one does. */
  function NondetLength(lines: seq<string>): (n: Option<nat>)
    requires lines != []
    ensures n.Some? ==> 0 < n.value <= |lines|
  {
    if StartsEntry(lines[0]) then
      var n := EntryLength(lines);
      if n.Some? && EndsNondet(lines[n.value - 1]) then n else None
    else None
  }

  /** The lines after disabling, when `depth` braces are open in the current methods block, if any. */
  function Process(lines: seq<string>, inBlock: bool, depth: int): seq<string>
    decreases |lines|
  {
    if lines == [] then []
    else if !inBlock then
      var starts := StartsBlock(lines[0]);
      [lines[0]] + Process(lines[1..], starts, if starts then Depth(lines[0]) else depth)
    else
      var d := depth + Depth(lines[0]);
      if d <= 0 then [lines[0]] + Process(lines[1..], false, d)
      else
        match NondetLength(lines)
        case Some(n) => Disabled(lines[..n]) + Process(lines[n..], true, d)
        case None => [lines[0]] + Process(lines[1..], true, d)
  }

  // ----- The line loop -----

  method CollectEntry(lines: seq<string>, i: nat) returns (n: Option<nat>)
    requires i < |lines|
    ensures n == EntryLength(lines[i..])
  {
    var j := i;
    ghost var rest := lines[i..];
    while j < |lines|
      invariant i <= j <= |lines|
      invariant EntryLength(rest) == match EntryLength(lines[j..]) case Some(m) => Some(m + j - i) case None => None
    {
      if ';' in lines[j] {
        return Some(j - i + 1);
      }
      assert lines[j..][1..] == lines[j + 1..];
      j := j + 1;
    }
    return None;
  }

  method DisableEntry(lines: seq<string>) returns (disabled: seq<string>)
    ensures disabled == Disabled(lines)
  {
    disabled := [];
    for k := 0 to |lines|
      invariant disabled + Disabled(lines[k..]) == Disabled(lines)
    {
      assert lines[k..][1..] == lines[k + 1..];
      disabled := disabled + [PREFIX + lines[k]];
    }
  }

  lemma ProcessNext(lines: seq<string>, i: nat, inBlock: bool, depth: int)
    requires i < |lines|
    ensures !inBlock ==>
              Process(lines[i..], inBlock, depth)
              == [lines[i]] + Process(lines[i + 1..], StartsBlock(lines[i]), if StartsBlock(lines[i]) then Depth(lines[i]) else depth)
    ensures inBlock && depth + Depth(lines[i]) <= 0 ==>
              Process(lines[i..], inBlock, depth) == [lines[i]] + Process(lines[i + 1..], false, depth + Depth(lines[i]))
    ensures inBlock && depth + Depth(lines[i]) > 0 && NondetLength(lines[i..]) == None ==>
              Process(lines[i..], inBlock, depth) == [lines[i]] + Process(lines[i + 1..], true, depth + Depth(lines[i]))
  {
    assert lines[i..][1..] == lines[i + 1..];
  }

  lemma ProcessEntry(lines: seq<string>, i: nat, depth: int, n: nat)
    requires i < |lines| && depth + Depth(lines[i]) > 0 && NondetLength(lines[i..]) == Some(n)
    ensures i + n <= |lines|
    ensures Process(lines[i..], true, depth)
         == Disabled(lines[i..i + n]) + Process(lines[i + n..], true, depth + Depth(lines[i]))
  {
    assert lines[i..][..n] == lines[i..i + n] && lines[i..][n..] == lines[i + n..];
  }

  /** One round of the loop: what is emitted for line i, and where and in which state to go on. */
  method ProcessLine(lines: seq<string>, i: nat, inBlock: bool, depth: int)
    returns (out: seq<string>, next: nat, inBlock': bool, depth': int)
    requires i < |lines|
    ensures i < next <= |lines|
    ensures Process(lines[i..], inBlock, depth) == out + Process(lines[next..], inBlock', depth')
  {
    ProcessNext(lines, i, inBlock, depth);
    out, next, inBlock', depth' := [lines[i]], i + 1, inBlock, depth;
    if !inBlock {
      if StartsBlock(lines[i]) {
        inBlock', depth' := true, Depth(lines[i]);
      }
    } else {
      depth' := depth + Depth(lines[i]);
      if depth' <= 0 {
        inBlock' := false;
      } else {
        var entry := NextEntry(lines, i);
        if entry.Some? {
          ProcessEntry(lines, i, depth, entry.value);
          next := i + entry.value;
          out := DisableEntry(lines[i..next]);
        }
      }
    }
  }

  method CommentOutNondetEntries(lines: seq<string>) returns (result: seq<string>)
    ensures result == Process(lines, false, 0)
  {
    result := [];
    var i: nat, inBlock, depth := 0, false, 0;
    assert lines[0..] == lines;
    while i < |lines|
      invariant i <= |lines|
      invariant result + Process(lines[i..], inBlock, depth) == Process(lines, false, 0)
      decreases |lines| - i
    {
      ghost var before := result;
      var out;
      out, i, inBlock, depth := ProcessLine(lines, i, inBlock, depth);
      result := result + out;
      Associative(before, out, Process(lines[i..], inBlock, depth));
    }
  }

  method NextEntry(lines: seq<string>, i: nat) returns (n: Option<nat>)
    requires i < |lines|
    ensures n == NondetLength(lines[i..])
  {
    n := None;
    if StartsEntry(lines[i]) {
      var entry := CollectEntry(lines, i);
      if entry.Some? && EndsNondet(lines[i + entry.value - 1]) {
        assert lines[i..][entry.value - 1] == lines[i + entry.value - 1];
        n := entry;
      } else if entry.Some? {
        assert lines[i..][entry.value - 1] == lines[i + entry.value - 1];
      }
    }
  }

  // ----- All texts -----

  function Restored(line: string): string {
    if PREFIX <= line then line[|PREFIX|..] else line
  }

  lemma DisabledAt(lines: seq<string>, k: nat)
    requires k < |lines|
    ensures |Disabled(lines)| == |lines| && Disabled(lines)[k] == PREFIX + lines[k]
  {
    if k > 0 {
      DisabledAt(lines[1..], k - 1);
    } else if |lines| > 1 {
      DisabledAt(lines[1..], 0);
    }
  }

  /** Every line stays, as it is or with the prefix. */
  lemma {:induction false} LinesStay(lines: seq<string>, inBlock: bool, depth: int, k: nat)
    requires k < |lines|
    ensures |Process(lines, inBlock, depth)| == |lines|
    ensures Process(lines, inBlock, depth)[k] == lines[k] || Process(lines, inBlock, depth)[k] == "// IV-DISABLED: " + lines[k]
    decreases |lines|
  {
    var d, entry := depth + Depth(lines[0]), NondetLength(lines);
    if inBlock && d > 0 && entry.Some? {
      var n := entry.value;
      DisabledAt(lines[..n], if k < n then k else 0);
      if n < |lines| {
        LinesStay(lines[n..], true, d, if k < n then 0 else k - n);
      }
    } else if |lines| > 1 {
      var starts := StartsBlock(lines[0]);
      var in', d' := if inBlock then d > 0 else starts, if inBlock then d else if starts then Depth(lines[0]) else depth;
      assert Process(lines, inBlock, depth) == [lines[0]] + Process(lines[1..], in', d');
      LinesStay(lines[1..], in', d', if k > 0 then k - 1 else 0);
    }
  }

  /** Dropping the prefix restores any text in which no line has it from the start. */
  lemma RestoringUndoes(lines: seq<string>, k: nat)
    requires k < |lines| && !(PREFIX <= lines[k])
    ensures k < |Process(lines, false, 0)| && Restored(Process(lines, false, 0)[k]) == lines[k]
  {
    LinesStay(lines, false, 0, k);
    assert (PREFIX + lines[k])[|PREFIX|..] == lines[k];
  }

  // ----- Specs with methods blocks -----

  datatype Entries =
    | NoMore
    | Misc(line: string, more: Entries)
    | Function(lines: seq<string>, more: Entries)

  datatype Spec =
    | Done
    | Outside(line: string, next: Spec)
    | Block(head: string, entries: Entries, close: string, next: Spec)

  function Lines(e: Entries): seq<string> {
    match e
    case NoMore => []
    case Misc(line, more) => [line] + Lines(more)
    case Function(lines, more) => lines + Lines(more)
  }

  function Print(s: Spec): seq<string> {
    match s
    case Done => []
    case Outside(line, next) => [line] + Print(next)
    case Block(head, entries, close, next) => [head] + (Lines(entries) + ([close] + Print(next)))
  }

  predicate OpensMethods(line: string) {
    Begins(line, "methods") && '{' in line
  }

  predicate IsFunctionLine(line: string) {
    Begins(line, "function")
  }

  /** Lines without unbalanced braces, the last of which has the only semicolons. */
  predicate IsEntry(lines: seq<string>) {
    && lines != [] && ';' in lines[|lines| - 1]
    && (forall k :: 0 <= k < |lines| - 1 ==> ';' !in lines[k])
    && forall k :: 0 <= k < |lines| ==> Depth(lines[k]) == 0
  }

  predicate EntriesOk(e: Entries) {
    match e
    case NoMore => true
    case Misc(line, more) => Depth(line) == 0 && !IsFunctionLine(line) && EntriesOk(more)
    case Function(lines, more) => IsEntry(lines) && IsFunctionLine(lines[0]) && EntriesOk(more)
  }

  predicate SpecOk(s: Spec) {
    match s
    case Done => true
    case Outside(line, next) => !OpensMethods(line) && SpecOk(next)
    case Block(head, entries, close, next) =>
      OpensMethods(head) && Depth(head) == 1 && EntriesOk(entries) && Depth(close) == -1 && SpecOk(next)
  }

  /** The last line has `NONDET;` at its end, apart from white space. */
  predicate IsNondet(lines: seq<string>) {
    lines != [] && Finishes(lines[|lines| - 1], "NONDET;")
  }

  function CommentedOut(lines: seq<string>): seq<string> {
    seq(|lines|, k requires 0 <= k < |lines| => "// IV-DISABLED: " + lines[k])
  }

  function AsMisc(lines: seq<string>, more: Entries): Entries {
    if lines == [] then more else Misc(lines[0], AsMisc(lines[1..], more))
  }

  /** The entries with the lines of the NONDET ones commented out. */
  function WithoutNondet(e: Entries): Entries {
    match e
    case NoMore => NoMore
    case Misc(line, more) => Misc(line, WithoutNondet(more))
    case Function(lines, more) =>
      if IsNondet(lines) then AsMisc(CommentedOut(lines), WithoutNondet(more)) else Function(lines, WithoutNondet(more))
  }

  function NondetDisabled(s: Spec): Spec {
    match s
    case Done => Done
    case Outside(line, next) => Outside(line, NondetDisabled(next))
    case Block(head, entries, close, next) => Block(head, WithoutNondet(entries), close, NondetDisabled(next))
  }

  lemma OpensIsStarts(line: string)
    ensures OpensMethods(line) <==> StartsBlock(line)
  {
    BeginsIsTrimmed(line, "methods");
  }

  lemma FunctionIsEntry(line: string)
    ensures IsFunctionLine(line) <==> StartsEntry(line)
  {
    BeginsIsTrimmed(line, "function");
  }

  lemma NondetIsEnd(line: string)
    ensures Finishes(line, "NONDET;") <==> EndsNondet(line)
  {
    FinishesIsTrimmed(line, "NONDET;");
  }

  lemma {:induction false} DisabledIsCommentedOut(lines: seq<string>)
    ensures Disabled(lines) == CommentedOut(lines)
  {
    if lines != [] {
      DisabledIsCommentedOut(lines[1..]);
    }
  }

  lemma {:induction false} EntryInFront(lines: seq<string>, more: seq<string>)
    requires lines != [] && ';' in lines[|lines| - 1] && forall k :: 0 <= k < |lines| - 1 ==> ';' !in lines[k]
    ensures EntryLength(lines + more) == Some(|lines|)
  {
    if |lines| > 1 {
      assert (lines + more)[1..] == lines[1..] + more;
      EntryInFront(lines[1..], more);
    }
  }

  lemma EntryTail(lines: seq<string>)
    requires IsEntry(lines) && |lines| > 1
    ensures IsEntry(lines[1..])
  {
  }

  lemma EntryLine(lines: seq<string>, more: seq<string>)
    requires IsEntry(lines)
    ensures lines != [] && (lines + more)[0] == lines[0] && Depth(lines[0]) == 0
    ensures NondetLength(lines + more) == if IsFunctionLine(lines[0]) && IsNondet(lines) then Some(|lines|) else None
  {
    EntryInFront(lines, more);
    FunctionIsEntry(lines[0]);
    NondetIsEnd(lines[|lines| - 1]);
    assert (lines + more)[|lines| - 1] == lines[|lines| - 1];
  }

  lemma ProcessPlainLine(lines: seq<string>)
    requires lines != [] && Depth(lines[0]) == 0 && NondetLength(lines) == None
    ensures Process(lines, true, 1) == [lines[0]] + Process(lines[1..], true, 1)
  {
  }

  lemma ProcessNondetEntry(lines: seq<string>, n: nat)
    requires lines != [] && Depth(lines[0]) == 0 && NondetLength(lines) == Some(n)
    ensures Process(lines, true, 1) == Disabled(lines[..n]) + Process(lines[n..], true, 1)
  {
    assert lines[0..] == lines && lines[0..n] == lines[..n];
    ProcessEntry(lines, 0, 1, n);
  }

  /** An entry whose last line is any text with `NONDET;` and white space behind it is commented out. */
  lemma NondetLineIsDisabled(front: seq<string>, t: string, gap: string, more: seq<string>)
    requires WhiteSpace(gap) && IsEntry(front + [t + "NONDET;" + gap]) && IsFunctionLine((front + [t + "NONDET;" + gap])[0])
    ensures var lines := front + [t + "NONDET;" + gap];
      Process(lines + more, true, 1) == CommentedOut(lines) + Process(more, true, 1)
  {
    WordBeforeGap(t, "NONDET;", gap);
    NondetIsDisabled(front + [t + "NONDET;" + gap], more);
  }

  lemma OnlyOneEnd(t: string, gap: string)
    requires WhiteSpace(gap) && Finishes(t + ";" + gap, "NONDET;")
    ensures EndsWith(t, "NONDET")
  {
    var s := t + ";";
    FinishesIsTrimmed(s + gap, "NONDET;");
    EndTrimmed(s, gap);
    assert s[|s| - 7..] == "NONDET;";
    assert t[|t| - 6..] == s[|s| - 7..][..6] == "NONDET;"[..6] == "NONDET";
  }

  /** An entry whose last line ends with a semicolon that `NONDET` is not before passes. */
  lemma OtherLinePasses(front: seq<string>, t: string, gap: string, more: seq<string>)
    requires WhiteSpace(gap) && !EndsWith(t, "NONDET") && IsEntry(front + [t + ";" + gap])
    ensures var lines := front + [t + ";" + gap];
      Process(lines + more, true, 1) == lines + Process(more, true, 1)
  {
    if Finishes(t + ";" + gap, "NONDET;") {
      OnlyOneEnd(t, gap);
    }
    OtherPasses(front + [t + ";" + gap], more);
  }

  /** Another kind of entry passes, also where a later line of it looks like a start. */
  lemma {:induction false} OtherPasses(lines: seq<string>, more: seq<string>)
    requires IsEntry(lines) && !IsNondet(lines)
    ensures Process(lines + more, true, 1) == lines + Process(more, true, 1)
    decreases |lines|
  {
    EntryLine(lines, more);
    ProcessPlainLine(lines + more);
    assert (lines + more)[1..] == lines[1..] + more && lines == [lines[0]] + lines[1..];
    if |lines| > 1 {
      EntryTail(lines);
      OtherPasses(lines[1..], more);
    } else {
      assert lines[1..] + more == more;
    }
    Associative([lines[0]], lines[1..], Process(more, true, 1));
  }

  lemma NondetIsDisabled(lines: seq<string>, more: seq<string>)
    requires IsEntry(lines) && IsFunctionLine(lines[0]) && IsNondet(lines)
    ensures Process(lines + more, true, 1) == CommentedOut(lines) + Process(more, true, 1)
  {
    EntryLine(lines, more);
    DisabledIsCommentedOut(lines);
    ProcessNondetEntry(lines + more, |lines|);
    assert (lines + more)[..|lines|] == lines && (lines + more)[|lines|..] == more;
  }

  lemma MiscPasses(line: string, more: seq<string>)
    requires Depth(line) == 0 && !IsFunctionLine(line)
    ensures Process([line] + more, true, 1) == [line] + Process(more, true, 1)
  {
    FunctionIsEntry(line);
    assert ([line] + more)[1..] == more;
  }

  lemma {:induction false} MiscLines(lines: seq<string>, more: Entries)
    ensures Lines(AsMisc(lines, more)) == lines + Lines(more)
  {
    if lines == [] {
      assert lines + Lines(more) == Lines(more);
    } else {
      MiscLines(lines[1..], more);
      assert lines == [lines[0]] + lines[1..];
      Associative([lines[0]], lines[1..], Lines(more));
    }
  }

  lemma {:induction false} EntriesProcessed(e: Entries, rest: seq<string>)
    requires EntriesOk(e)
    ensures Process(Lines(e) + rest, true, 1) == Lines(WithoutNondet(e)) + Process(rest, true, 1)
  {
    match e {
      case NoMore =>
        assert Lines(e) + rest == rest;
      case Misc(line, more) =>
        EntriesProcessed(more, rest);
        MiscPasses(line, Lines(more) + rest);
        Associative([line], Lines(more), rest);
        Associative([line], Lines(WithoutNondet(more)), Process(rest, true, 1));
      case Function(lines, more) =>
        EntriesProcessed(more, rest);
        Associative(lines, Lines(more), rest);
        FunctionProcessed(lines, more, rest);
    }
  }

  lemma FunctionProcessed(lines: seq<string>, more: Entries, rest: seq<string>)
    requires IsEntry(lines) && IsFunctionLine(lines[0])
    requires Process(Lines(more) + rest, true, 1) == Lines(WithoutNondet(more)) + Process(rest, true, 1)
    ensures Process(lines + (Lines(more) + rest), true, 1)
         == Lines(WithoutNondet(Function(lines, more))) + Process(rest, true, 1)
  {
    var after := Lines(WithoutNondet(more));
    if IsNondet(lines) {
      NondetIsDisabled(lines, Lines(more) + rest);
      MiscLines(CommentedOut(lines), WithoutNondet(more));
      Associative(CommentedOut(lines), after, Process(rest, true, 1));
    } else {
      OtherPasses(lines, Lines(more) + rest);
      Associative(lines, after, Process(rest, true, 1));
    }
  }

  lemma BlockCloses(close: string, rest: seq<string>)
    requires Depth(close) == -1
    ensures Process([close] + rest, true, 1) == [close] + Process(rest, false, 0)
  {
    assert ([close] + rest)[1..] == rest;
  }

  lemma BlockOpens(head: string, rest: seq<string>)
    requires OpensMethods(head) && Depth(head) == 1
    ensures Process([head] + rest, false, 0) == [head] + Process(rest, true, 1)
  {
    OpensIsStarts(head);
    assert ([head] + rest)[1..] == rest;
  }

  /** On specs with methods blocks, exactly the lines of the NONDET entries get the prefix. */
  lemma {:induction false} ExactlyNondetIsDisabled(s: Spec)
    requires SpecOk(s)
    ensures Process(Print(s), false, 0) == Print(NondetDisabled(s))
  {
    match s {
      case Done =>
      case Outside(line, next) =>
        ExactlyNondetIsDisabled(next);
        OpensIsStarts(line);
        assert Print(s)[1..] == Print(next);
      case Block(head, entries, close, next) =>
        ExactlyNondetIsDisabled(next);
        BlockOpens(head, Lines(entries) + ([close] + Print(next)));
        EntriesProcessed(entries, [close] + Print(next));
        BlockCloses(close, Print(next));
    }
  }

  // ----- The second pass -----

  lemma PrefixIsInert(line: string)
    ensures Depth("// IV-DISABLED: " + line) == Depth(line) && !IsFunctionLine("// IV-DISABLED: " + line)
  {
    CommentIsInert("// IV-DISABLED: ", line);
    FunctionIsEntry("// IV-DISABLED: " + line);
  }

  lemma CommentIsInert(prefix: string, line: string)
    requires prefix != "" && prefix[0] == '/' && '{' !in prefix && '}' !in prefix
    ensures Depth(prefix + line) == Depth(line) && !StartsEntry(prefix + line)
  {
    DepthConcat(prefix, line);
    BraceFreeDepth(prefix);
    assert (prefix + line)[0] == '/';
    assert TrimmedStart(prefix + line) == prefix + line;
    assert "function"[0] == 'f';
  }

  lemma {:induction false} DisabledIsMisc(lines: seq<string>, more: Entries)
    requires EntriesOk(more) && forall k :: 0 <= k < |lines| ==> Depth(lines[k]) == 0
    ensures EntriesOk(AsMisc(CommentedOut(lines), more))
    ensures WithoutNondet(AsMisc(CommentedOut(lines), more)) == AsMisc(CommentedOut(lines), WithoutNondet(more))
  {
    if lines != [] {
      PrefixIsInert(lines[0]);
      DisabledIsMisc(lines[1..], more);
      assert CommentedOut(lines)[1..] == CommentedOut(lines[1..]);
    }
  }

  lemma {:induction false} EntriesSecondPass(e: Entries)
    requires EntriesOk(e)
    ensures EntriesOk(WithoutNondet(e)) && WithoutNondet(WithoutNondet(e)) == WithoutNondet(e)
  {
    match e
    case NoMore =>
    case Misc(_, more) => EntriesSecondPass(more);
    case Function(lines, more) =>
      EntriesSecondPass(more);
      if IsNondet(lines) {
        DisabledIsMisc(lines, WithoutNondet(more));
      }
  }

  lemma {:induction false} SpecSecondPass(s: Spec)
    requires SpecOk(s)
    ensures SpecOk(NondetDisabled(s)) && NondetDisabled(NondetDisabled(s)) == NondetDisabled(s)
  {
    match s
    case Done =>
    case Outside(_, next) => SpecSecondPass(next);
    case Block(_, entries, _, next) =>
      EntriesSecondPass(entries);
      SpecSecondPass(next);
  }

  /** A second pass changes nothing. */
  lemma DisablingIsIdempotent(s: Spec)
    requires SpecOk(s)
    ensures var once := Process(Print(s), false, 0);
      Process(once, false, 0) == once
  {
    ExactlyNondetIsDisabled(s);
    SpecSecondPass(s);
    ExactlyNondetIsDisabled(NondetDisabled(s));
  }

  // ----- An entry that is not recognized -----

  /** A line that does not end with a semicolon ends no NONDET entry. */
  lemma OtherEnd(line: string)
    requires line != "" && !IsSpace(line[|line| - 1]) && line[|line| - 1] != ';'
    ensures !EndsNondet(line)
  {
    assert TrimmedEnd(line) == line;
    assert "NONDET;"[6] == ';';
  }

  /** An entry in one line that holds `NONDET;` but goes on with a remark stays as it is. */
  lemma RemarkHidesNondet(head: string, remark: string)
    requires "function" <= head && BraceFree(head) && BraceFree(remark)
    requires remark != "" && !IsSpace(remark[|remark| - 1]) && remark[|remark| - 1] != ';'
    ensures var line := head + ("NONDET;" + remark);
      Contains(line, "NONDET;") && IsFunctionLine(line) && IsEntry([line]) && Process([line], true, 1) == [line]
  {
    var line := head + ("NONDET;" + remark);
    assert line[|head|..] == "NONDET;" + remark;
    assert head[0] == "function"[0] && line[0] == head[0];
    assert line[|head| + 6] == ';';
    OtherEnd(line);
    BraceFreeDepth(line);
    FunctionIsEntry(line);
    NondetIsEnd(line);
    OtherPasses([line], []);
    assert [line] + [] == [line];
  }
}
