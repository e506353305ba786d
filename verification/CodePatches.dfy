/**
 * Replacing `.code` accesses by offset: patches are applied one at a time from the end of a file to
 * its start, and all files are put back when any of them fails.
 */
module CodePatches {
  import opened Options
  import opened Text

  datatype Patch = Patch(file: string, offset: nat, length: nat, original: string, replacement: string)

  // ----- One file -----

  function Min(a: nat, b: nat): nat {
    if a < b then a else b
  }

  /** A slice of text, cut off at the end of the text. */
  function Slice(s: string, from: nat, upto: nat): string {
    if from >= upto then "" else s[Min(from, |s|)..Min(upto, |s|)]
  }

  predicate Matches(content: string, p: Patch) {
    Slice(content, p.offset, p.offset + p.length) == p.original
  }

  function ApplyOne(content: string, p: Patch): string {
    if Matches(content, p) then
      Slice(content, 0, p.offset) + p.replacement + Slice(content, p.offset + p.length, |content|)
    else content
  }

  function ApplyInOrder(content: string, ps: seq<Patch>): string
    decreases |ps|
  {
    if ps == [] then content else ApplyInOrder(ApplyOne(content, ps[0]), ps[1..])
  }

  /** The patches that no longer match when their turn comes. */
  function SkippedInOrder(content: string, ps: seq<Patch>): seq<Patch>
    decreases |ps|
  {
    if ps == [] then []
    else (if Matches(content, ps[0]) then [] else [ps[0]]) + SkippedInOrder(ApplyOne(content, ps[0]), ps[1..])
  }

  function Insert(p: Patch, ps: seq<Patch>): seq<Patch> {
    if ps == [] || p.offset >= ps[0].offset then [p] + ps else [ps[0]] + Insert(p, ps[1..])
  }

  /** Stable sorting by descending offset. */
  function Descending(ps: seq<Patch>): seq<Patch> {
    if ps == [] then [] else Insert(ps[0], Descending(ps[1..]))
  }

  lemma SliceAt(front: string, middle: string, back: string)
    ensures var s := front + (middle + back);
      && Slice(s, |front|, |front| + |middle|) == middle
      && Slice(s, 0, |front|) == front && Slice(s, |front| + |middle|, |s|) == back
  {
    var s := front + (middle + back);
    assert s[|front|..|front| + |middle|] == middle;
    assert s[0..|front|] == front && s[|front| + |middle|..|s|] == back;
  }

  /** A patch whose original is at its offset is put there in its place; with another text there it changes nothing. */
  lemma PatchInContext(front: string, middle: string, back: string, p: Patch)
    requires p.offset == |front| && p.length == |middle|
    ensures Matches(front + (middle + back), p) <==> middle == p.original
    ensures ApplyOne(front + (middle + back), p) == if middle == p.original then front + p.replacement + back else front + (middle + back)
  {
    SliceAt(front, middle, back);
  }

  /** The patches at one offset. */
  function AtOffset(ps: seq<Patch>, offset: nat): seq<Patch> {
    if ps == [] then [] else (if ps[0].offset == offset then [ps[0]] else []) + AtOffset(ps[1..], offset)
  }

  function IfAt(p: Patch, offset: nat): seq<Patch> {
    if p.offset == offset then [p] else []
  }

  lemma AtOffsetCons(p: Patch, ps: seq<Patch>, offset: nat)
    ensures AtOffset([p] + ps, offset) == IfAt(p, offset) + AtOffset(ps, offset)
  {
    assert ([p] + ps)[1..] == ps && ([p] + ps)[0] == p;
  }

  lemma OneIsElsewhere(p: Patch, q: Patch, ps: seq<Patch>, offset: nat)
    requires p.offset != q.offset
    ensures IfAt(q, offset) + (IfAt(p, offset) + ps) == IfAt(p, offset) + (IfAt(q, offset) + ps)
  {
  }

  lemma {:induction false} InsertKeepsTies(p: Patch, ps: seq<Patch>, offset: nat)
    ensures AtOffset(Insert(p, ps), offset) == IfAt(p, offset) + AtOffset(ps, offset)
  {
    if ps == [] || p.offset >= ps[0].offset {
      AtOffsetCons(p, ps, offset);
    } else {
      InsertKeepsTies(p, ps[1..], offset);
      AtOffsetCons(ps[0], Insert(p, ps[1..]), offset);
      AtOffsetCons(ps[0], ps[1..], offset);
      assert [ps[0]] + ps[1..] == ps;
      OneIsElsewhere(p, ps[0], AtOffset(ps[1..], offset), offset);
    }
  }

  /** Sorting keeps the order of patches at the same offset. */
  lemma {:induction false} DescendingKeepsTies(ps: seq<Patch>, offset: nat)
    ensures AtOffset(Descending(ps), offset) == AtOffset(ps, offset)
  {
    if ps != [] {
      DescendingKeepsTies(ps[1..], offset);
      InsertKeepsTies(ps[0], Descending(ps[1..]), offset);
      AtOffsetCons(ps[0], ps[1..], offset);
      assert [ps[0]] + ps[1..] == ps;
    }
  }

  // ----- Substituting all patches at once -----

  /** The first patch at offset i, if any. */
  function At(ps: seq<Patch>, i: nat): Option<Patch> {
    if ps == [] then None
    else if ps[0].offset == i then Some(ps[0])
    else At(ps[1..], i)
  }

  /** The patch that takes effect at offset i. */
  function Effective(content: string, ps: seq<Patch>, i: nat): Option<Patch> {
    match At(ps, i)
    case Some(p) => if Matches(content, p) && p.length > 0 then Some(p) else None
    case None => None
  }

  /** What stands for the text from offset i, and where to go on. */
  function Piece(content: string, at: int -> Option<Patch>, i: nat): (r: (string, nat))
    requires i < |content|
    ensures r.1 > i
  {
    match at(i)
    case Some(p) => if p.length > 0 then (p.replacement, i + p.length) else ([content[i]], i + 1)
    case None => ([content[i]], i + 1)
  }

  /** The text from offset i on, with every range that `at` names replaced. */
  function Substitute(content: string, at: int -> Option<Patch>, i: nat): string
    decreases |content| - i
  {
    if i >= |content| then ""
    else
      var (text, next) := Piece(content, at, i);
      text + Substitute(content, at, next)
  }

  /** All matching patches substituted at once; nothing here depends on an order of patches. */
  function Substituted(content: string, ps: seq<Patch>): string {
    Substitute(content, (i: int) => if i >= 0 then Effective(content, ps, i) else None, 0)
  }

  predicate Apart(p: Patch, q: Patch) {
    p.offset + p.length <= q.offset || q.offset + q.length <= p.offset
  }

  /** Patches that cover non-empty, pairwise disjoint ranges of the text. */
  ghost predicate Disjoint(content: string, ps: seq<Patch>) {
    && (forall i :: 0 <= i < |ps| ==> 0 < ps[i].length && ps[i].offset + ps[i].length <= |content|)
    && forall i, j :: 0 <= i < j < |ps| ==> Apart(ps[i], ps[j])
  }

  /** Each patch ends before the previous one starts, and the first one ends before `upto`. */
  predicate Stacked(ps: seq<Patch>, upto: nat)
  {
    ps == [] || (0 < ps[0].length && ps[0].offset + ps[0].length <= upto && Stacked(ps[1..], ps[0].offset))
  }

  /** Inserting a patch apart from all others keeps the stack. */
  lemma {:induction false} InsertStacked(p: Patch, ps: seq<Patch>, upto: nat)
    requires Stacked(ps, upto) && 0 < p.length && p.offset + p.length <= upto
    requires forall q :: q in ps ==> Apart(p, q)
    ensures Stacked(Insert(p, ps), upto)
    ensures forall i :: At(Insert(p, ps), i) == At([p] + ps, i)
    ensures forall q :: q in Insert(p, ps) <==> q == p || q in ps
  {
    assert ([p] + ps)[1..] == ps;
    if ps != [] {
      assert Apart(p, ps[0]);
      if p.offset < ps[0].offset {
        InsertStacked(p, ps[1..], ps[0].offset);
        assert ([p] + ps[1..])[1..] == ps[1..];
        forall i
          ensures At(Insert(p, ps), i) == At([p] + ps, i)
        {
          assert Insert(p, ps)[1..] == Insert(p, ps[1..]);
        }
      }
    }
  }

  /** Sorting disjoint patches stacks them, and keeps which patch is at which offset. */
  lemma {:induction false} DescendingStacks(content: string, ps: seq<Patch>)
    requires Disjoint(content, ps)
    ensures Stacked(Descending(ps), |content|)
    ensures forall i :: At(Descending(ps), i) == At(ps, i)
    ensures forall q :: q in Descending(ps) <==> q in ps
  {
    if ps != [] {
      DescendingStacks(content, ps[1..]);
      forall q | q in Descending(ps[1..])
        ensures Apart(ps[0], q)
      {
        var j :| 0 <= j < |ps[1..]| && ps[1..][j] == q;
        assert q == ps[j + 1];
      }
      InsertStacked(ps[0], Descending(ps[1..]), |content|);
      assert ps == [ps[0]] + ps[1..];
      forall i
        ensures At(Descending(ps), i) == At(ps, i)
      {
        assert At([ps[0]] + Descending(ps[1..]), i) == At(Descending(ps), i);
        assert ([ps[0]] + Descending(ps[1..]))[1..] == Descending(ps[1..]);
      }
    }
  }

  // ----- One at a time from the end is all at once -----

  /** Between patches the text is copied. */
  lemma {:induction false} GapCopied(content: string, at: int -> Option<Patch>, i: nat, j: nat)
    requires i <= j <= |content| && forall k :: i <= k < j ==> at(k) == None
    ensures Substitute(content, at, i) == content[i..j] + Substitute(content, at, j)
    decreases j - i
  {
    if i < j {
      GapCopied(content, at, i + 1, j);
      assert at(i) == None;
      assert content[i..j] == [content[i]] + content[i + 1..j];
      Associative([content[i]], content[i + 1..j], Substitute(content, at, j));
    } else {
      assert content[i..j] == "";
    }
  }

  lemma {:induction false} AtInStack(ps: seq<Patch>, upto: nat)
    requires Stacked(ps, upto)
    ensures forall i :: i >= upto ==> At(ps, i) == None
    ensures forall p :: p in ps ==> At(ps, p.offset) == Some(p) && p.offset < upto
    ensures ps != [] ==> forall i :: i > ps[0].offset ==> At(ps, i) == None
  {
    if ps != [] {
      AtInStack(ps[1..], ps[0].offset);
      assert ps == [ps[0]] + ps[1..];
    }
  }

  /** Whether a patch matches does not depend on what was replaced behind it. */
  lemma MatchesInFront(content: string, p: Patch, u: nat, tail: string)
    requires p.offset + p.length <= u <= |content|
    ensures Matches(content[..u] + tail, p) == Matches(content, p)
  {
    var c := content[..u] + tail;
    if p.length > 0 {
      assert Slice(c, p.offset, p.offset + p.length) == c[p.offset..p.offset + p.length];
      assert c[p.offset..p.offset + p.length] == content[p.offset..p.offset + p.length];
    }
  }

  lemma Unfold(content: string, at: int -> Option<Patch>, i: nat, text: string, next: nat)
    requires i < |content| && Piece(content, at, i) == (text, next)
    ensures Substitute(content, at, i) == text + Substitute(content, at, next)
  {
  }

  lemma PieceOfPatch(content: string, at: int -> Option<Patch>, p: Patch)
    requires 0 < p.length && p.offset < |content| && at(p.offset) == Some(p)
    ensures Piece(content, at, p.offset) == (p.replacement, p.offset + p.length)
  {
  }

  lemma ReplacedAt(content: string, at: int -> Option<Patch>, p: Patch, u: nat, tail: string)
    requires 0 < p.length && p.offset + p.length <= u <= |content| && at(p.offset) == Some(p)
    requires forall i :: p.offset < i < u ==> at(i) == None
    requires tail == Substitute(content, at, u)
    ensures Substitute(content, at, p.offset) == p.replacement + (content[p.offset + p.length..u] + tail)
  {
    GapCopied(content, at, p.offset + p.length, u);
    PieceOfPatch(content, at, p);
    Unfold(content, at, p.offset, p.replacement, p.offset + p.length);
  }

  lemma NotReplacedAt(content: string, at: int -> Option<Patch>, i: nat, u: nat)
    requires i < u <= |content| && forall k :: i <= k < u ==> at(k) == None
    ensures content[..u] + Substitute(content, at, u) == content[..i] + Substitute(content, at, i)
  {
    GapCopied(content, at, i, u);
    SplitInFront(content, i, u, Substitute(content, at, u));
  }

  lemma SplitInFront(content: string, i: nat, u: nat, tail: string)
    requires i <= u <= |content|
    ensures content[..u] + tail == content[..i] + (content[i..u] + tail)
  {
  }

  lemma MatchingStep(content: string, at: int -> Option<Patch>, p: Patch, u: nat, tail: string)
    requires 0 < p.length && p.offset + p.length <= u <= |content| && at(p.offset) == Some(p)
    requires forall i :: p.offset < i < u ==> at(i) == None
    requires tail == Substitute(content, at, u) && Matches(content[..u] + tail, p)
    ensures ApplyOne(content[..u] + tail, p) == content[..p.offset] + Substitute(content, at, p.offset)
  {
    ReplacedAt(content, at, p, u, tail);
    ReplaceInFront(content, p, u, tail);
  }

  lemma MismatchStep(content: string, at: int -> Option<Patch>, p: Patch, u: nat, tail: string)
    requires 0 < p.length && p.offset + p.length <= u <= |content| && at(p.offset) == None
    requires forall i :: p.offset < i < u ==> at(i) == None
    requires tail == Substitute(content, at, u) && !Matches(content[..u] + tail, p)
    ensures ApplyOne(content[..u] + tail, p) == content[..p.offset] + Substitute(content, at, p.offset)
  {
    NotReplacedAt(content, at, p.offset, u);
  }

  /** One step: the text behind the patch is already substituted; afterwards the patch is, too. */
  lemma PatchStep(content: string, at: int -> Option<Patch>, p: Patch, u: nat, tail: string)
    requires 0 < p.length && p.offset + p.length <= u <= |content|
    requires at(p.offset) == if Matches(content, p) then Some(p) else None
    requires forall i :: p.offset < i < u ==> at(i) == None
    requires tail == Substitute(content, at, u)
    ensures ApplyOne(content[..u] + tail, p) == content[..p.offset] + Substitute(content, at, p.offset)
  {
    MatchesInFront(content, p, u, tail);
    if Matches(content, p) {
      MatchingStep(content, at, p, u, tail);
    } else {
      MismatchStep(content, at, p, u, tail);
    }
  }

  lemma Around(content: string, u: nat, tail: string, from: nat, end: nat)
    requires from <= end <= u <= |content|
    ensures (content[..u] + tail)[0..from] == content[..from]
    ensures var c := content[..u] + tail; c[end..|c|] == content[end..u] + tail
  {
  }

  lemma ReplaceInFront(content: string, p: Patch, u: nat, tail: string)
    requires p.offset + p.length <= u <= |content| && Matches(content[..u] + tail, p)
    ensures ApplyOne(content[..u] + tail, p)
         == content[..p.offset] + (p.replacement + (content[p.offset + p.length..u] + tail))
  {
    var c, end := content[..u] + tail, p.offset + p.length;
    SliceOf(c, 0, p.offset);
    SliceOf(c, end, |c|);
    Around(content, u, tail, p.offset, end);
    Associative(content[..p.offset], p.replacement, content[end..u] + tail);
  }

  lemma SliceOf(s: string, from: nat, upto: nat)
    requires from <= upto <= |s|
    ensures Slice(s, from, upto) == s[from..upto]
  {
  }

  lemma {:induction false} StackIsSubstitution(content: string, at: int -> Option<Patch>, ps: seq<Patch>, u: nat)
    requires u <= |content| && Stacked(ps, u)
    requires forall i: nat :: i < u ==> at(i) == Effective(content, ps, i)
    ensures ApplyInOrder(content[..u] + Substitute(content, at, u), ps) == Substitute(content, at, 0)
    ensures SkippedInOrder(content[..u] + Substitute(content, at, u), ps) == Mismatching(content, ps)
    decreases |ps|
  {
    if ps == [] {
      GapCopied(content, at, 0, u);
      assert content[0..u] == content[..u];
    } else {
      var p := ps[0];
      AtInStack(ps, u);
      AtInStack(ps[1..], p.offset);
      assert p in ps && at(p.offset) == Effective(content, ps, p.offset);
      PatchStep(content, at, p, u, Substitute(content, at, u));
      MatchesInFront(content, p, u, Substitute(content, at, u));
      StackIsSubstitution(content, at, ps[1..], p.offset);
    }
  }

  function Mismatching(content: string, ps: seq<Patch>): seq<Patch> {
    if ps == [] then []
    else (if Matches(content, ps[0]) then [] else [ps[0]]) + Mismatching(content, ps[1..])
  }

  lemma {:induction false} MismatchingMembers(content: string, ps: seq<Patch>)
    ensures forall p :: p in Mismatching(content, ps) <==> p in ps && !Matches(content, p)
  {
    if ps != [] {
      MismatchingMembers(content, ps[1..]);
      assert ps == [ps[0]] + ps[1..];
    }
  }

  /**
   * Applying disjoint patches one at a time in descending order substitutes all of them at once, and
   * skips exactly those that do not match the unpatched text.
   */
  lemma DescendingIsSimultaneous(content: string, ps: seq<Patch>)
    requires Disjoint(content, ps)
    ensures ApplyInOrder(content, Descending(ps)) == Substituted(content, ps)
    ensures forall p :: p in SkippedInOrder(content, Descending(ps)) <==> p in ps && !Matches(content, p)
  {
    var sorted := Descending(ps);
    var at := (i: int) => if i >= 0 then Effective(content, ps, i) else None;
    DescendingStacks(content, ps);
    forall i: nat
      ensures at(i) == Effective(content, sorted, i)
    {
      assert At(sorted, i) == At(ps, i);
    }
    StackIsSubstitution(content, at, sorted, |content|);
    assert content[..|content|] + Substitute(content, at, |content|) == content;
    MismatchingMembers(content, sorted);
  }

  // ----- Overlapping patches are skipped -----

  predicate InRange(content: string, p: Patch) {
    0 < p.length && p.offset + p.length <= |content|
  }

  /** The replacement for `q` changes the text inside the range of `p`. */
  predicate Differs(content: string, p: Patch, q: Patch)
    requires InRange(content, p)
  {
    exists d :: 0 <= d < |q.replacement| && q.offset + d < p.offset + p.length && q.replacement[d] != content[q.offset + d]
  }

  /** If `q` is applied before `p` and overlaps it, it leaves a difference. */
  predicate LeavesTrace(content: string, p: Patch, q: Patch) {
    InRange(content, p) && (!Apart(p, q) && p.offset <= q.offset ==> Differs(content, p, q))
  }

  /** Of any two overlapping patches, the one that is applied first leaves a difference in the other one's range. */
  predicate OverlapsShow(content: string, ps: seq<Patch>) {
    ps == [] ||
      ((forall q :: q in ps[1..] ==> LeavesTrace(content, ps[0], q) && LeavesTrace(content, q, ps[0]))
       && OverlapsShow(content, ps[1..]))
  }

  /** The same for a sorted list, in which earlier patches are applied first. */
  predicate LaterShow(content: string, ps: seq<Patch>) {
    ps == [] || ((forall p :: p in ps[1..] ==> LeavesTrace(content, p, ps[0])) && LaterShow(content, ps[1..]))
  }

  predicate AllMatch(content: string, ps: seq<Patch>) {
    forall p :: p in ps ==> InRange(content, p) && Matches(content, p)
  }

  predicate Falling(ps: seq<Patch>, upto: nat) {
    ps == [] || (ps[0].offset <= upto && Falling(ps[1..], ps[0].offset))
  }

  lemma {:induction false} InsertMembers(p: Patch, ps: seq<Patch>)
    ensures forall q :: q in Insert(p, ps) <==> q == p || q in ps
  {
    if ps != [] && p.offset < ps[0].offset {
      InsertMembers(p, ps[1..]);
      assert ps == [ps[0]] + ps[1..];
    }
  }

  lemma {:induction false} DescendingMembers(ps: seq<Patch>)
    ensures forall q :: q in Descending(ps) <==> q in ps
  {
    if ps != [] {
      DescendingMembers(ps[1..]);
      InsertMembers(ps[0], Descending(ps[1..]));
      assert ps == [ps[0]] + ps[1..];
    }
  }

  lemma {:induction false} InsertFalls(p: Patch, ps: seq<Patch>, upto: nat)
    requires Falling(ps, upto) && p.offset <= upto
    ensures Falling(Insert(p, ps), upto)
  {
    if ps != [] && p.offset < ps[0].offset {
      InsertFalls(p, ps[1..], ps[0].offset);
    }
  }

  lemma {:induction false} DescendingFalls(ps: seq<Patch>, upto: nat)
    requires forall p :: p in ps ==> p.offset <= upto
    ensures Falling(Descending(ps), upto)
  {
    if ps != [] {
      DescendingFalls(ps[1..], upto);
      InsertFalls(ps[0], Descending(ps[1..]), upto);
    }
  }

  lemma {:induction false} InsertShows(content: string, p: Patch, ps: seq<Patch>)
    requires LaterShow(content, ps)
    requires forall q :: q in ps ==> LeavesTrace(content, p, q) && LeavesTrace(content, q, p)
    ensures LaterShow(content, Insert(p, ps))
  {
    if ps != [] && p.offset < ps[0].offset {
      InsertShows(content, p, ps[1..]);
      InsertMembers(p, ps[1..]);
    }
  }

  lemma {:induction false} DescendingShows(content: string, ps: seq<Patch>)
    requires OverlapsShow(content, ps)
    ensures LaterShow(content, Descending(ps))
  {
    if ps != [] {
      DescendingShows(content, ps[1..]);
      DescendingMembers(ps[1..]);
      InsertShows(content, ps[0], Descending(ps[1..]));
    }
  }

  /** A patch that reaches into a replacement that left a difference no longer matches. */
  lemma TraceIsMismatch(content: string, q: Patch, rest: string, p: Patch)
    requires InRange(content, p) && Matches(content, p)
    requires p.offset <= q.offset <= |content| && Differs(content, p, q)
    ensures !Matches(content[..q.offset] + (q.replacement + rest), p)
  {
    var c, end := content[..q.offset] + (q.replacement + rest), p.offset + p.length;
    var d :| 0 <= d < |q.replacement| && q.offset + d < end && q.replacement[d] != content[q.offset + d];
    SliceOf(content, p.offset, end);
    assert p.original[q.offset + d - p.offset] == content[q.offset + d];
    assert c[q.offset + d] == q.replacement[d];
    if end <= |c| {
      SliceOf(c, p.offset, end);
      assert Slice(c, p.offset, end)[q.offset + d - p.offset] == c[q.offset + d];
    } else {
      assert |Slice(c, p.offset, end)| < p.length == |p.original|;
    }
  }

  lemma UnskippedStep(content: string, ps: seq<Patch>)
    requires ps != [] && SkippedInOrder(content, ps) == []
    ensures Matches(content, ps[0]) && SkippedInOrder(ApplyOne(content, ps[0]), ps[1..]) == []
  {
  }

  lemma ShowParts(content: string, q: Patch, ps: seq<Patch>)
    requires ps != [] && LaterShow(content, [q] + ps)
    ensures LeavesTrace(content, ps[0], q) && LaterShow(content, ps)
  {
    assert ([q] + ps)[1..] == ps && ps[0] in ps;
  }

  lemma MatchParts(content: string, ps: seq<Patch>)
    requires ps != [] && AllMatch(content, ps)
    ensures InRange(content, ps[0]) && Matches(content, ps[0]) && AllMatch(content, ps[1..])
    ensures [ps[0]] + ps[1..] == ps
  {
    assert ps[0] in ps;
    assert forall p :: p in ps[1..] ==> p in ps;
  }

  /** After `q` was applied: if nothing more is skipped, the remaining patches are stacked in front of it. */
  lemma {:induction false} UnskippedIsStacked(content: string, q: Patch, rest: string, ps: seq<Patch>)
    requires q.offset <= |content| && 0 < q.length && Falling(ps, q.offset) && AllMatch(content, ps)
    requires LaterShow(content, [q] + ps)
    requires SkippedInOrder(content[..q.offset] + (q.replacement + rest), ps) == []
    ensures Stacked(ps, q.offset)
    decreases |ps|
  {
    if ps != [] {
      var p, tail := ps[0], q.replacement + rest;
      ShowParts(content, q, ps);
      MatchParts(content, ps);
      UnskippedStep(content[..q.offset] + tail, ps);
      if p.offset + p.length > q.offset {
        ReachesInto(content, q, rest, p);
      }
      ReplaceInFront(content, p, q.offset, tail);
      UnskippedIsStacked(content, p, content[p.offset + p.length..q.offset] + tail, ps[1..]);
    }
  }

  lemma ReachesInto(content: string, q: Patch, rest: string, p: Patch)
    requires p.offset <= q.offset <= |content| && q.offset < p.offset + p.length
    requires InRange(content, p) && Matches(content, p) && LeavesTrace(content, p, q) && 0 < q.length
    ensures !Matches(content[..q.offset] + (q.replacement + rest), p)
  {
    TraceIsMismatch(content, q, rest, p);
  }

  lemma {:induction false} InsertUnstacks(p: Patch, ps: seq<Patch>, upto: nat)
    requires Stacked(Insert(p, ps), upto)
    ensures Stacked(ps, upto) && 0 < p.length && p.offset + p.length <= upto
    ensures forall q :: q in ps ==> Apart(p, q)
  {
    if ps != [] {
      if p.offset < ps[0].offset {
        InsertUnstacks(p, ps[1..], ps[0].offset);
      } else {
        BelowStack(ps, p.offset);
      }
    }
  }

  lemma {:induction false} BelowStack(ps: seq<Patch>, upto: nat)
    requires Stacked(ps, upto)
    ensures forall q :: q in ps ==> q.offset + q.length <= upto
    ensures forall u: nat :: u >= upto ==> Stacked(ps, u)
  {
    if ps != [] {
      BelowStack(ps[1..], ps[0].offset);
    }
  }

  lemma {:induction false} StackIsDisjoint(content: string, ps: seq<Patch>)
    requires Stacked(Descending(ps), |content|)
    ensures Disjoint(content, ps)
  {
    if ps != [] {
      InsertUnstacks(ps[0], Descending(ps[1..]), |content|);
      StackIsDisjoint(content, ps[1..]);
      DescendingMembers(ps[1..]);
      forall i, j | 0 <= i < j < |ps|
        ensures Apart(ps[i], ps[j])
      {
        assert ps[j] == ps[1..][j - 1] && ps[j] in ps[1..];
        assert i > 0 ==> ps[i] == ps[1..][i - 1];
      }
    }
  }

  /**
   * For patches that match the text, where overlapping ones leave a difference: none is skipped if
   * and only if they are disjoint.
   */
  lemma NothingSkippedIffDisjoint(content: string, ps: seq<Patch>)
    requires AllMatch(content, ps) && OverlapsShow(content, ps)
    ensures SkippedInOrder(content, Descending(ps)) == [] <==> Disjoint(content, ps)
  {
    var sorted := Descending(ps);
    DescendingMembers(ps);
    if Disjoint(content, ps) {
      DescendingIsSimultaneous(content, ps);
      NoMembers(SkippedInOrder(content, sorted));
    } else if SkippedInOrder(content, sorted) == [] {
      UnskippedSorted(content, ps);
      StackIsDisjoint(content, ps);
    }
  }

  lemma NoMembers(ps: seq<Patch>)
    ensures (forall p :: p !in ps) ==> ps == []
  {
    assert ps != [] ==> ps[0] in ps;
  }

  lemma UnskippedSorted(content: string, ps: seq<Patch>)
    requires AllMatch(content, ps) && OverlapsShow(content, ps) && SkippedInOrder(content, Descending(ps)) == []
    ensures Stacked(Descending(ps), |content|)
  {
    var sorted := Descending(ps);
    DescendingMembers(ps);
    DescendingFalls(ps, |content|);
    DescendingShows(content, ps);
    if sorted != [] {
      var p := sorted[0];
      assert p in sorted;
      assert content[..|content|] + "" == content;
      ReplaceInFront(content, p, |content|, "");
      assert sorted == [p] + sorted[1..];
      UnskippedIsStacked(content, p, content[p.offset + p.length..|content|] + "", sorted[1..]);
    }
  }

  lemma InnerFirst(content: string, inner: Patch, outer: Patch, after: string)
    requires inner.offset > outer.offset && Matches(content, inner)
    requires ApplyOne(content, inner) == after && !Matches(after, outer)
    ensures ApplyInOrder(content, Descending([outer, inner])) == after
    ensures SkippedInOrder(content, Descending([outer, inner])) == [outer]
  {
    assert [outer, inner][1..] == [inner] && [inner][1..] == [] && [inner, outer][1..] == [outer];
    assert Descending([inner]) == Insert(inner, Descending([])) == [inner];
    assert Insert(outer, []) == [outer] && Descending([outer, inner]) == [inner, outer];
    assert ApplyInOrder(after, [outer]) == ApplyInOrder(after, []) == after;
    assert SkippedInOrder(after, [outer]) == [outer] + SkippedInOrder(after, []);
  }

  const INNER := Patch("C.sol", 2, 6, "a.code", "certora_loadCode(a)")
  const NESTED := "f(" + INNER.original + ").code"
  const OUTER := Patch("C.sol", 0, 14, NESTED, "certora_loadCode(f(a.code))")
  const HALF_PATCHED := "f(" + INNER.replacement + ").code"

  lemma ApplyBetween(front: string, p: Patch, back: string)
    requires p.offset == |front| && p.length == |p.original| > 0
    ensures Matches(front + p.original + back, p)
    ensures ApplyOne(front + p.original + back, p) == front + p.replacement + back
  {
    var c := front + p.original + back;
    SliceOf(c, p.offset, p.offset + p.length);
    SliceOf(c, 0, p.offset);
    SliceOf(c, p.offset + p.length, |c|);
    assert c[..|front|] == front && c[p.offset..p.offset + p.length] == p.original;
    assert c[p.offset + p.length..] == back;
  }

  lemma InnerReplaced()
    ensures Matches(NESTED, INNER) && ApplyOne(NESTED, INNER) == HALF_PATCHED
  {
    ApplyBetween("f(", INNER, ").code");
  }

  lemma OuterSkipped()
    ensures Matches(NESTED, OUTER) && !Matches(HALF_PATCHED, OUTER)
  {
    assert Slice(HALF_PATCHED, 0, 14)[2] == 'c' && NESTED[2] == 'a';
  }

  lemma NestedShow()
    ensures OverlapsShow(NESTED, [OUTER, INNER]) && InRange(NESTED, INNER) && InRange(NESTED, OUTER)
  {
    var ps := [OUTER, INNER];
    assert NESTED[2] == 'a' && INNER.replacement[0] == 'c';
    assert Differs(NESTED, OUTER, INNER);
    assert ps[1..] == [INNER] && [INNER][1..] == [];
    assert LeavesTrace(NESTED, OUTER, INNER) && LeavesTrace(NESTED, INNER, OUTER);
  }

  /** Of two nested accesses only the inner one is replaced: disjointness is needed. */
  lemma NestedPatchIsSkipped()
    ensures AllMatch(NESTED, [OUTER, INNER]) && OverlapsShow(NESTED, [OUTER, INNER])
    ensures ApplyInOrder(NESTED, Descending([OUTER, INNER])) == HALF_PATCHED
    ensures SkippedInOrder(NESTED, Descending([OUTER, INNER])) == [OUTER]
  {
    InnerReplaced();
    OuterSkipped();
    NestedShow();
    InnerFirst(NESTED, INNER, OUTER, HALF_PATCHED);
  }
}
