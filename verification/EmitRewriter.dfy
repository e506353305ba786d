/** The munging algorithm over offsets, refining the left-to-right description in EmitMunger. */
module EmitRewriter {
  import opened Text
  import opened Characters
  import opened EmitMunger

  function Line(content: string, i: nat): string
    requires i <= |content|
  {
    LineAfter("", content[..i])
  }

  /** The munged form of what starts at offset i. */
  function MungedFrom(content: string, i: nat): string
    requires i <= |content|
  {
    Munged(Line(content, i), content[i..])
  }

  lemma LineStep(content: string, i: nat, j: nat)
    requires i <= j <= |content|
    ensures Line(content, j) == LineAfter(Line(content, i), content[i..j])
  {
    assert content[..j] == content[..i] + content[i..j];
    LineAfterConcat("", content[..i], content[i..j]);
  }

  lemma LineBoundary(content: string, i: nat)
    requires i <= |content|
    ensures LastIsWord(Line(content, i)) == (i > 0 && IsWordChar(content[i - 1]))
  {
    if i > 0 {
      LineStep(content, i - 1, i);
      assert content[i - 1..i] == [content[i - 1]];
      assert LineAfter(Line(content, i - 1), [content[i - 1]]) == ExtendLine(Line(content, i - 1), content[i - 1]);
    }
  }

  predicate MatchesAt(content: string, i: nat)
    requires i <= |content|
  {
    EmitAt(i > 0 && IsWordChar(content[i - 1]), content[i..])
  }

  /** `emit`, white space, other characters than semicolons, and a semicolon. */
  predicate HasStatementForm(s: string, n: nat) {
    && 7 <= n <= |s| && s[..4] == "emit" && White(s[4]) && s[n - 1] == ';'
    && forall i :: 5 <= i < n - 1 ==> s[i] != ';'
  }

  lemma StatementHasForm(s: string)
    requires EmitAt(false, s)
    ensures HasStatementForm(s, EmitLength(s))
  {
    var n := EmitLength(s);
    assert s[..4] == "emit";
    forall i | 5 <= i < n - 1
      ensures s[i] != ';'
    {
      assert s[5..][..n - 6][i - 5] == s[i];
    }
    assert s[5..][n - 6] == s[n - 1];
  }

  lemma FormIsStatement(s: string, n: nat)
    requires HasStatementForm(s, n)
    ensures EmitAt(false, s) && EmitLength(s) == n
  {
    assert "emit" == s[..4] <= s;
    assert s[5] != ';' && s[5..][n - 6] == s[n - 1];
    assert forall i :: 0 <= i < n - 6 ==> s[5..][i] == s[5 + i];
    FirstSemicolon(s[5..], n - 5);
  }

  /** A statement starts where this form does, but not inside an identifier. */
  lemma MatchesAtForm(content: string, i: nat)
    requires i <= |content|
    ensures MatchesAt(content, i)
       <==> (i > 0 ==> !IdentifierChar(content[i - 1])) && exists n :: HasStatementForm(content[i..], n)
    ensures forall n :: MatchesAt(content, i) && HasStatementForm(content[i..], n) ==> Follows(content, i, i + n)
  {
    if EmitAt(false, content[i..]) {
      StatementHasForm(content[i..]);
    }
    forall n | HasStatementForm(content[i..], n)
      ensures EmitAt(false, content[i..]) && EmitLength(content[i..]) == n
    {
      FormIsStatement(content[i..], n);
    }
  }

  /** A statement takes up the text from `start` to `end`. */
  predicate Follows(content: string, start: nat, end: nat)
    requires start <= |content|
  {
    MatchesAt(content, start) && end == start + EmitLength(content[start..])
  }

  ghost predicate NoneStarts(content: string, from: nat, upto: nat) {
    forall i :: from <= i < upto && i < |content| ==> !MatchesAt(content, i)
  }

  /** Where the k-th statement starts; the search has come to `upto`. */
  function StartOf(emits: seq<(nat, nat)>, k: nat, upto: nat): nat {
    if k < |emits| then emits[k].0 else upto
  }

  /** The k-th offsets are a statement's, and none starts between it and the next one. */
  ghost predicate IsStatement(content: string, emits: seq<(nat, nat)>, k: nat, upto: nat) {
    && k < |emits| && emits[k].0 < emits[k].1 <= StartOf(emits, k + 1, upto) <= |content|
    && Follows(content, emits[k].0, emits[k].1) && NoneStarts(content, emits[k].1, StartOf(emits, k + 1, upto))
  }

  /** The statements' offsets: in order, apart, and with no statement starting between them. */
  ghost predicate IsStatementList(content: string, emits: seq<(nat, nat)>, upto: nat) {
    && upto <= |content| && NoneStarts(content, 0, StartOf(emits, 0, upto))
    && forall k: nat :: k < |emits| ==> IsStatement(content, emits, k, upto)
  }

  method MatchStatement(content: string, i: nat) returns (found: bool, end: nat)
    requires i < |content|
    ensures found == MatchesAt(content, i)
    ensures found ==> Follows(content, i, end)
  {
    found, end := MatchesAt(content, i), i;
    if found {
      end := i + EmitLength(content[i..]);
    }
  }

  /** One step of the search: past the statement that starts here, or to the next character. */
  method Search(content: string, emits: seq<(nat, nat)>, i: nat) returns (longer: seq<(nat, nat)>, next: nat)
    requires i < |content| && IsStatementList(content, emits, i)
    ensures i < next <= |content| && IsStatementList(content, longer, next)
  {
    var found, end := MatchStatement(content, i);
    if found {
      AppendList(content, emits, i, end);
      longer, next := emits + [(i, end)], end;
    } else {
      ExtendList(content, emits, i);
      longer, next := emits, i + 1;
    }
  }

  lemma NothingBefore(content: string)
    ensures IsStatementList(content, [], 0)
  {
  }

  /** All non-overlapping statements, from left to right. */
  method FindEmitStatements(content: string) returns (emits: seq<(nat, nat)>)
    ensures IsStatementList(content, emits, |content|)
  {
    emits := [];
    var i: nat := 0;
    NothingBefore(content);
    while i < |content|
      invariant i <= |content|
      invariant IsStatementList(content, emits, i)
      decreases |content| - i
    {
      emits, i := Search(content, emits, i);
    }
  }

  lemma NoneStartsHere(content: string, from: nat, i: nat)
    requires i < |content| && NoneStarts(content, from, i) && !MatchesAt(content, i)
    ensures NoneStarts(content, from, i + 1)
  {
  }

  lemma ExtendStatement(content: string, emits: seq<(nat, nat)>, k: nat, i: nat)
    requires i < |content| && IsStatement(content, emits, k, i) && !MatchesAt(content, i)
    ensures IsStatement(content, emits, k, i + 1)
  {
    if k + 1 == |emits| {
      NoneStartsHere(content, emits[k].1, i);
    }
  }

  lemma ExtendList(content: string, emits: seq<(nat, nat)>, i: nat)
    requires i < |content| && IsStatementList(content, emits, i) && !MatchesAt(content, i)
    ensures IsStatementList(content, emits, i + 1)
  {
    var next := i + 1;
    forall k: nat | k < |emits|
      ensures IsStatement(content, emits, k, next)
    {
      ExtendStatement(content, emits, k, i);
    }
    if emits == [] {
      NoneStartsHere(content, 0, i);
    }
  }

  lemma AppendStatement(content: string, emits: seq<(nat, nat)>, k: nat, start: nat, end: nat)
    requires IsStatement(content, emits, k, start)
    ensures IsStatement(content, emits + [(start, end)], k, end)
  {
  }

  lemma StatementEnds(content: string, start: nat, end: nat)
    requires start <= |content| && Follows(content, start, end)
    ensures start < end <= |content|
  {
  }

  lemma AppendList(content: string, emits: seq<(nat, nat)>, start: nat, end: nat)
    requires start <= |content| && IsStatementList(content, emits, start) && Follows(content, start, end)
    ensures IsStatementList(content, emits + [(start, end)], end) && start < end <= |content|
  {
    StatementEnds(content, start, end);
    var longer := emits + [(start, end)];
    forall k: nat | k < |longer|
      ensures IsStatement(content, longer, k, end)
    {
      if k < |emits| {
        AppendStatement(content, emits, k, start, end);
      }
    }
  }

  lemma GapStep(content: string, i: nat)
    requires i < |content| && !MatchesAt(content, i)
    ensures MungedFrom(content, i) == [content[i]] + MungedFrom(content, i + 1)
  {
    var s, line := content[i..], Line(content, i);
    LineBoundary(content, i);
    MungedUnmarked(line, s);
    LineStep(content, i, i + 1);
    assert content[i..i + 1] == [s[0]] && s[1..] == content[i + 1..];
    assert LineAfter(line, [s[0]]) == LineAfter(ExtendLine(line, s[0]), "");
  }

  lemma {:induction false} GapCopied(content: string, f: int -> string, i: nat, j: nat)
    requires i <= j <= |content| && forall k :: i <= k < j ==> f(k) == [content[k]] + f(k + 1)
    ensures f(i) == content[i..j] + f(j)
    decreases j - i
  {
    if i < j {
      GapCopied(content, f, i + 1, j);
      assert content[i..j] == [content[i]] + content[i + 1..j];
      Associative([content[i]], content[i + 1..j], f(j));
    } else {
      assert content[i..j] == "";
    }
  }

  /** Between statements the output is the input. */
  lemma GapUnchanged(content: string, i: nat, j: nat)
    requires i <= j <= |content| && forall k :: i <= k < j ==> !MatchesAt(content, k)
    ensures MungedFrom(content, i) == content[i..j] + MungedFrom(content, j)
  {
    var f := k => if 0 <= k <= |content| then MungedFrom(content, k) else "";
    forall k | i <= k < j
      ensures f(k) == [content[k]] + f(k + 1)
    {
      GapStep(content, k);
    }
    GapCopied(content, f, i, j);
  }

  lemma MungedStatement(line: string, s: string)
    requires EmitAt(LastIsWord(line), s)
    ensures var n := EmitLength(s);
      Munged(line, s) == Marked(line, s[..n]) + Munged(LineAfter(line, s[..n]), s[n..])
  {
  }

  lemma StatementMunged(content: string, start: nat, end: nat)
    requires start <= |content| && Follows(content, start, end)
    ensures end <= |content|
    ensures MungedFrom(content, start) == Marked(Line(content, start), content[start..end]) + MungedFrom(content, end)
  {
    var s := content[start..];
    LineBoundary(content, start);
    LineStep(content, start, end);
    MungedStatement(Line(content, start), s);
    assert s[..end - start] == content[start..end] && s[end - start..] == content[end..];
  }

  function LineStart(content: string, i: nat): (n: nat)
    requires i <= |content|
    ensures n <= i
  {
    if i == 0 || content[i - 1] == '\n' then i else LineStart(content, i - 1)
  }

  lemma {:induction false} LineIsFromStart(content: string, i: nat)
    requires i <= |content|
    ensures Line(content, i) == content[LineStart(content, i)..i]
  {
    if i > 0 {
      LineStep(content, i - 1, i);
      assert content[i - 1..i] == [content[i - 1]];
      assert LineAfter(Line(content, i - 1), [content[i - 1]]) == ExtendLine(Line(content, i - 1), content[i - 1]);
      if content[i - 1] != '\n' {
        LineIsFromStart(content, i - 1);
        var n := LineStart(content, i - 1);
        assert content[n..i] == content[n..i - 1] + [content[i - 1]];
      }
    }
  }

  class Munger {
    var totalEmits: nat

    constructor ()
      ensures totalEmits == 0
    {
      totalEmits := 0;
    }

    method IsAlreadyMunged(content: string, emitStart: nat) returns (b: bool)
      requires emitStart <= |content|
      ensures b <==> Contains(Line(content, emitStart), MARK)
    {
      var lineStart: nat := emitStart;
      while lineStart > 0 && content[lineStart - 1] != '\n'
        invariant lineStart <= emitStart <= |content| && LineStart(content, lineStart) == LineStart(content, emitStart)
      {
        lineStart := lineStart - 1;
      }
      LineIsFromStart(content, emitStart);
      b := Contains(content[lineStart..emitStart], MARK);
    }

    /** Inserts the marker of one statement; everything from `upto` on is munged already. */
    method MungeStatement(content: string, modified: string, start: nat, end: nat, upto: nat)
      returns (result: string, inserted: nat)
      requires start < end <= upto <= |content| && Follows(content, start, end)
      requires NoneStarts(content, end, upto)
      requires modified == content[..upto] + MungedFrom(content, upto)
      modifies this
      ensures result == content[..start] + MungedFrom(content, start)
      ensures totalEmits == old(totalEmits) + inserted
      ensures inserted == if Contains(Line(content, start), MARK) then 0 else 1
      ensures inserted == 0 ==> result == modified
    {
      GapUnchanged(content, end, upto);
      StatementMunged(content, start, end);
      var tail, rest := MungedFrom(content, upto), MungedFrom(content, end);
      Pieces(content, start, end, upto, tail);
      assert modified == content[..start] + content[start..end] + rest by {
        Associative(content[..start] + content[start..end], content[end..upto], tail);
      }
      result, inserted := modified, 0;
      SamePrefixLine(content, modified, start, upto, tail);
      var already := IsAlreadyMunged(modified, start);
      var emitText := content[start..end];
      if !already {
        if '\n' in emitText {
          result := modified[..start] + MULTI + modified[start..end] + CLOSE + modified[end..];
          Surround(content[..start], MULTI, emitText, CLOSE, rest);
        } else {
          result := modified[..start] + SINGLE + modified[start..];
          Prepend(content[..start], SINGLE, emitText, rest);
        }
        inserted, totalEmits := 1, totalEmits + 1;
      } else {
        Associative(content[..start], emitText, rest);
      }
    }

    /** Munges the k-th statement when everything from the next one on is munged. */
    method MungeNext(content: string, emits: seq<(nat, nat)>, k: nat, modified: string, ghost tail: int -> string)
      returns (result: string, inserted: nat)
      requires IsStatement(content, emits, k, |content|)
      requires MungedTails(content, tail) && IsMungedFrom(content, emits, k + 1, modified, tail)
      modifies this
      ensures IsMungedFrom(content, emits, k, result, tail)
      ensures totalEmits == old(totalEmits) + inserted && (inserted == 0 ==> result == modified)
    {
      var (start, end) := emits[k];
      var upto := StartOf(emits, k + 1, |content|);
      assert tail(upto) == MungedFrom(content, upto) && tail(start) == MungedFrom(content, start);
      result, inserted := MungeStatement(content, modified, start, end, upto);
    }

    /** Inserts from the last statement to the first, so that earlier offsets stay valid. */
    method MungeBackwards(content: string, emits: seq<(nat, nat)>, ghost tail: int -> string)
      returns (modified: string, modifications: nat)
      requires forall k: nat :: k < |emits| ==> IsStatement(content, emits, k, |content|)
      requires MungedTails(content, tail) && IsMungedFrom(content, emits, |emits|, content, tail)
      modifies this
      ensures IsMungedFrom(content, emits, 0, modified, tail)
      ensures totalEmits == old(totalEmits) + modifications && (modifications == 0 ==> modified == content)
    {
      modified, modifications := content, 0;
      var k: nat := |emits|;
      while k > 0
        invariant k <= |emits| && IsMungedFrom(content, emits, k, modified, tail)
        invariant totalEmits == old(totalEmits) + modifications && (modifications == 0 ==> modified == content)
      {
        k := k - 1;
        var inserted;
        modified, inserted := MungeNext(content, emits, k, modified, tail);
        modifications := modifications + inserted;
      }
    }

    method MungeEmitStatements(content: string) returns (modified: string, modifications: nat)
      modifies this
      ensures modified == Munge(content)
      ensures totalEmits == old(totalEmits) + modifications
      ensures modifications == 0 ==> modified == content
    {
      var emits := FindEmitStatements(content);
      ghost var tail := TailsOf(content);
      NothingMunged(content, emits, tail);
      modified, modifications := MungeBackwards(content, emits, tail);
      AllMunged(content, emits, modified, tail);
    }
  }

  /** `tail` gives the munged form of what starts at each offset. */
  ghost predicate MungedTails(content: string, tail: int -> string) {
    forall i: nat {:trigger MungedFrom(content, i)} :: i <= |content| ==> tail(i) == MungedFrom(content, i)
  }

  lemma TailsOf(content: string) returns (tail: int -> string)
    ensures MungedTails(content, tail) && tail(|content|) == ""
  {
    tail := i => if 0 <= i <= |content| then MungedFrom(content, i) else "";
    assert MungedFrom(content, |content|) == "";
  }

  /** `modified` is the input with everything from the k-th statement on munged. */
  ghost predicate IsMungedFrom(content: string, emits: seq<(nat, nat)>, k: nat, modified: string, tail: int -> string) {
    var start := StartOf(emits, k, |content|);
    start <= |content| && modified == content[..start] + tail(start)
  }

  lemma NothingMunged(content: string, emits: seq<(nat, nat)>, tail: int -> string)
    requires tail(|content|) == ""
    ensures IsMungedFrom(content, emits, |emits|, content, tail)
  {
  }

  lemma AllMunged(content: string, emits: seq<(nat, nat)>, modified: string, tail: int -> string)
    requires IsStatementList(content, emits, |content|) && MungedTails(content, tail)
    requires IsMungedFrom(content, emits, 0, modified, tail)
    ensures modified == Munge(content)
  {
    var first := StartOf(emits, 0, |content|);
    assert tail(first) == MungedFrom(content, first);
    GapUnchanged(content, 0, first);
    assert content[..0] == "" && content[0..] == content && content[0..first] == content[..first];
  }

  /** Up to an offset before all insertions, the modified text has the lines of the input. */
  lemma SamePrefixLine(content: string, modified: string, start: nat, upto: nat, tail: string)
    requires start <= upto <= |content| && modified == content[..upto] + tail
    ensures start <= |modified| && Line(modified, start) == Line(content, start)
  {
    assert modified[..start] == content[..start];
  }

  lemma Pieces(content: string, start: nat, end: nat, upto: nat, tail: string)
    requires start < end <= upto <= |content|
    ensures content[..upto] == content[..start] + content[start..end] + content[end..upto]
  {
  }

  lemma Surround(a: string, open: string, e: string, close: string, rest: string)
    ensures var s := a + e + rest;
      s[..|a|] + open + s[|a|..|a| + |e|] + close + s[|a| + |e|..] == a + (open + e + close + rest)
  {
    var s := a + e + rest;
    assert s[..|a|] == a && s[|a|..|a| + |e|] == e && s[|a| + |e|..] == rest;
  }

  lemma Prepend(a: string, open: string, e: string, rest: string)
    ensures var s := a + e + rest;
      s[..|a|] + open + s[|a|..] == a + (open + e + rest)
  {
    var s := a + e + rest;
    assert s[..|a|] == a && s[|a|..] == e + rest;
  }
}
