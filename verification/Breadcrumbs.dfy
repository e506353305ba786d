/** Display modes of a flat, depth-annotated trace, and the forest of calls it was printed from. */
module Breadcrumbs {
  import opened Options
  import opened Text

  datatype Kind = Call | Return | Step

  datatype Crumb = Crumb(kind: Kind, depth: nat, method_: Option<string>)

  datatype Mode = Full | Medium | Condensed

  // ----- What the passes compute -----

  /** A deeper call comes before the return that ends the call at this depth. */
  predicate CallsDeeper(rest: seq<Crumb>, depth: nat) {
    if rest == [] then false
    else if rest[0].kind == Call && rest[0].depth > depth then true
    else if rest[0].depth <= depth && rest[0].kind == Return then false
    else CallsDeeper(rest[1..], depth)
  }

  function NameAt(c: Crumb, i: nat): string {
    match c.method_ case Some(name) => name case None => Decimal(i)
  }

  /** The name of the last call at the given depth, or its position if it has no name. */
  function Context(before: seq<Crumb>, depth: int): string {
    if before == [] then "root"
    else
      var i := |before| - 1;
      if before[i].kind == Call && before[i].depth == depth then NameAt(before[i], i)
      else Context(before[..i], depth)
  }

  type Key = (int, string)

  function KeyOf(crumbs: seq<Crumb>, i: nat): Key
    requires i < |crumbs|
  {
    var parentDepth := crumbs[i].depth - 1;
    (parentDepth, Context(crumbs[..i], parentDepth))
  }

  /** No later call has the same key. */
  ghost predicate IsLastOfKey(crumbs: seq<Crumb>, i: nat)
    requires i < |crumbs|
  {
    forall j :: i < j < |crumbs| && crumbs[j].kind == Call ==> KeyOf(crumbs, j) != KeyOf(crumbs, i)
  }

  ghost function ModeOf(crumbs: seq<Crumb>, i: nat): Mode
    requires i < |crumbs|
  {
    match crumbs[i].kind
    case Call =>
      if !CallsDeeper(crumbs[i + 1..], crumbs[i].depth) then Full
      else if IsLastOfKey(crumbs, i) then Medium
      else Condensed
    case Return => Condensed
    case Step => if i == |crumbs| - 1 || crumbs[i + 1].depth < crumbs[i].depth then Full else Condensed
  }

  // ----- The three passes -----

  method HasSubcalls(crumbs: seq<Crumb>, i: nat) returns (hasSubs: bool)
    requires i < |crumbs|
    ensures hasSubs == CallsDeeper(crumbs[i + 1..], crumbs[i].depth)
  {
    var depth := crumbs[i].depth;
    for j := i + 1 to |crumbs|
      invariant CallsDeeper(crumbs[j..], depth) == CallsDeeper(crumbs[i + 1..], depth)
    {
      assert crumbs[j..][1..] == crumbs[j + 1..];
      if crumbs[j].kind == Call && crumbs[j].depth > depth {
        return true;
      } else if crumbs[j].depth <= depth && crumbs[j].kind == Return {
        return false;
      }
    }
    return false;
  }

  method ParentContext(crumbs: seq<Crumb>, index: nat, parentDepth: int) returns (context: string)
    requires index < |crumbs|
    ensures context == Context(crumbs[..index], parentDepth)
  {
    var i: nat := index;
    while i > 0
      invariant i <= index && Context(crumbs[..i], parentDepth) == Context(crumbs[..index], parentDepth)
    {
      i := i - 1;
      ghost var before := crumbs[..i + 1];
      assert before[..i] == crumbs[..i] && before[i] == crumbs[i];
      if crumbs[i].kind == Call && crumbs[i].depth == parentDepth {
        return NameAt(crumbs[i], i);
      }
    }
    return "root";
  }

  method CallsWithSubcalls(crumbs: seq<Crumb>) returns (hasSubcalls: map<nat, bool>)
    ensures forall i :: i in hasSubcalls <==> 0 <= i < |crumbs| && crumbs[i].kind == Call
    ensures forall i :: i in hasSubcalls ==> hasSubcalls[i] == CallsDeeper(crumbs[i + 1..], crumbs[i].depth)
  {
    hasSubcalls := map[];
    for i := 0 to |crumbs|
      invariant forall j :: j in hasSubcalls <==> 0 <= j < i && crumbs[j].kind == Call
      invariant forall j :: j in hasSubcalls ==> hasSubcalls[j] == CallsDeeper(crumbs[j + 1..], crumbs[j].depth)
    {
      if crumbs[i].kind == Call {
        var subs := HasSubcalls(crumbs, i);
        hasSubcalls := hasSubcalls[i := subs];
      }
    }
  }

  /** The entry of a key is the last call before n with that key. */
  ghost predicate LastCalls(crumbs: seq<Crumb>, n: nat, last: map<Key, nat>)
    requires n <= |crumbs|
  {
    && (forall key :: key in last ==> last[key] < n && crumbs[last[key]].kind == Call && KeyOf(crumbs, last[key]) == key)
    && forall i :: 0 <= i < n && crumbs[i].kind == Call ==> KeyOf(crumbs, i) in last && i <= last[KeyOf(crumbs, i)]
  }

  lemma LaterCall(crumbs: seq<Crumb>, i: nat, last: map<Key, nat>)
    requires i < |crumbs| && LastCalls(crumbs, i, last)
    ensures LastCalls(crumbs, i + 1, if crumbs[i].kind == Call then last[KeyOf(crumbs, i) := i] else last)
  {
  }

  method LastCallPerKey(crumbs: seq<Crumb>) returns (last: map<Key, nat>)
    ensures LastCalls(crumbs, |crumbs|, last)
  {
    last := map[];
    for i := 0 to |crumbs|
      invariant LastCalls(crumbs, i, last)
    {
      LaterCall(crumbs, i, last);
      if crumbs[i].kind == Call {
        var parentDepth := crumbs[i].depth - 1;
        var context := ParentContext(crumbs, i, parentDepth);
        last := last[(parentDepth, context) := i];
      }
    }
  }

  lemma LastMeansLast(crumbs: seq<Crumb>, last: map<Key, nat>, i: nat)
    requires LastCalls(crumbs, |crumbs|, last) && i < |crumbs| && crumbs[i].kind == Call
    ensures KeyOf(crumbs, i) in last && (last[KeyOf(crumbs, i)] == i <==> IsLastOfKey(crumbs, i))
  {
    var n := last[KeyOf(crumbs, i)];
    if n == i {
      forall j | i < j < |crumbs| && crumbs[j].kind == Call
        ensures KeyOf(crumbs, j) != KeyOf(crumbs, i)
      {
      }
    }
  }

  method CallMode(crumbs: seq<Crumb>, i: nat, hasSubcalls: bool, last: map<Key, nat>) returns (mode: Mode)
    requires i < |crumbs| && LastCalls(crumbs, |crumbs|, last) && crumbs[i].kind == Call
    requires hasSubcalls == CallsDeeper(crumbs[i + 1..], crumbs[i].depth)
    ensures mode == ModeOf(crumbs, i)
  {
    var parentDepth := crumbs[i].depth - 1;
    var context := ParentContext(crumbs, i, parentDepth);
    LastMeansLast(crumbs, last, i);
    if !hasSubcalls {
      mode := Full;
    } else if last[(parentDepth, context)] == i {
      mode := Medium;
    } else {
      mode := Condensed;
    }
  }

  method DisplayMode(crumbs: seq<Crumb>, i: nat, hasSubcalls: map<nat, bool>, last: map<Key, nat>) returns (mode: Mode)
    requires i < |crumbs| && LastCalls(crumbs, |crumbs|, last)
    requires crumbs[i].kind == Call ==>
               i in hasSubcalls && hasSubcalls[i] == CallsDeeper(crumbs[i + 1..], crumbs[i].depth)
    ensures mode == ModeOf(crumbs, i)
  {
    match crumbs[i].kind {
      case Call => mode := CallMode(crumbs, i, hasSubcalls[i], last);
      case Return => mode := Condensed;
      case Step =>
        var isLeaf := i == |crumbs| - 1;
        if !isLeaf {
          isLeaf := crumbs[i + 1].depth < crumbs[i].depth;
        }
        mode := if isLeaf then Full else Condensed;
    }
  }

  method ProcessBreadcrumbs(crumbs: seq<Crumb>) returns (modes: seq<Mode>)
    ensures |modes| == |crumbs|
    ensures forall i :: 0 <= i < |crumbs| ==> modes[i] == ModeOf(crumbs, i)
  {
    var hasSubcalls := CallsWithSubcalls(crumbs);
    var last := LastCallPerKey(crumbs);
    modes := [];
    for i := 0 to |crumbs|
      invariant |modes| == i && forall j :: 0 <= j < i ==> modes[j] == ModeOf(crumbs, j)
    {
      var mode := DisplayMode(crumbs, i, hasSubcalls, last);
      modes := modes + [mode];
    }
  }

  // ----- The forest behind a trace -----

  /** Crumbs and calls in order; the depth of crumbs that are not calls is up to them. */
  datatype Forest =
    | Nil
    | Op(at: nat, next: Forest)
    | Invoke(name: Option<string>, children: Forest, next: Forest)

  function Print(f: Forest, depth: nat): seq<Crumb> {
    match f
    case Nil => []
    case Op(at, next) => [Crumb(Step, at, None)] + Print(next, depth)
    case Invoke(name, children, next) =>
      [Crumb(Call, depth, name)] + Print(children, depth + 1) + [Crumb(Return, depth, None)] + Print(next, depth)
  }

  predicate HasCall(f: Forest) {
    match f
    case Nil => false
    case Op(_, next) => HasCall(next)
    case Invoke(_, _, _) => true
  }

  /** What the forest says about a crumb: whether its call has a child call and a later sibling call, and its parent's name. */
  datatype Place = Place(hasChild: bool, hasLaterSibling: bool, parent: string) | NoPlace

  function Label(name: Option<string>, at: nat): string {
    match name case Some(s) => s case None => Decimal(at)
  }

  /** The places of the crumbs of a forest whose first crumb is number `at`. */
  function Places(f: Forest, depth: nat, parent: string, at: nat): (r: seq<Place>)
    ensures |r| == |Print(f, depth)|
  {
    match f
    case Nil => []
    case Op(_, next) => [NoPlace] + Places(next, depth, parent, at + 1)
    case Invoke(name, children, next) =>
      [Place(HasCall(children), HasCall(next), parent)] + Places(children, depth + 1, Label(name, at), at + 1) + [NoPlace]
      + Places(next, depth, parent, at + |Print(children, depth + 1)| + 2)
  }

  lemma {:induction false} ScanFindsChild(f: Forest, depth: nat, rest: seq<Crumb>)
    ensures CallsDeeper(Print(f, depth + 1) + ([Crumb(Return, depth, None)] + rest), depth) <==> HasCall(f)
  {
    var more := [Crumb(Return, depth, None)] + rest;
    var all := Print(f, depth + 1) + more;
    match f {
      case Nil =>
        assert all == more;
      case Op(at, next) =>
        assert all[0] == Crumb(Step, at, None) && all[1..] == Print(next, depth + 1) + more;
        ScanFindsChild(next, depth, rest);
      case Invoke(name, _, _) =>
        assert all[0] == Crumb(Call, depth + 1, name);
    }
  }

  /** Where an index falls in a bracketed part followed by a tail. */
  lemma PartAt<T>(c: T, inner: seq<T>, e: T, tail: seq<T>, i: nat)
    requires i < |inner| + 2 + |tail|
    ensures var all := [c] + inner + [e] + tail;
      all[i] == if i == 0 then c else if i <= |inner| then inner[i - 1] else if i == |inner| + 1 then e else tail[i - |inner| - 2]
  {
  }

  lemma SuffixAt<T>(c: T, inner: seq<T>, e: T, tail: seq<T>, rest: seq<T>, i: nat)
    requires i < |inner| + 2 + |tail|
    ensures var all := [c] + inner + [e] + tail + rest;
      && (i <= |inner| ==> all[i + 1..] == (inner + ([e] + (tail + rest)))[i..])
      && (i > |inner| + 1 ==> all[i + 1..] == (tail + rest)[i - |inner| - 1..])
  {
  }

  lemma PrefixAt<T>(before: seq<T>, c: T, inner: seq<T>, e: T, tail: seq<T>, i: nat)
    requires i < |inner| + 2 + |tail|
    ensures var all := [c] + inner + [e] + tail;
      && (i == 0 ==> before + all[..i] == before)
      && (0 < i <= |inner| ==> before + all[..i] == before + [c] + inner[..i - 1])
      && (i > |inner| + 1 ==> before + all[..i] == before + [c] + inner + [e] + tail[..i - |inner| - 2])
  {
  }

  /** The crumbs and places of a forest that starts with a call, part by part. */
  lemma InvokeParts(f: Forest, depth: nat, parent: string, at: nat, inner: seq<Crumb>, tail: seq<Crumb>, ps: seq<Place>, qs: seq<Place>)
    requires f.Invoke? && inner == Print(f.children, depth + 1) && tail == Print(f.next, depth)
    requires ps == Places(f.children, depth + 1, Label(f.name, at), at + 1)
    requires qs == Places(f.next, depth, parent, at + |inner| + 2)
    ensures |inner| == |ps| && |tail| == |qs|
    ensures Print(f, depth) == [Crumb(Call, depth, f.name)] + inner + [Crumb(Return, depth, None)] + tail
    ensures Places(f, depth, parent, at) == [Place(HasCall(f.children), HasCall(f.next), parent)] + ps + [NoPlace] + qs
  {
  }

  // ----- Full display -----

  /** Crumb i of a text, if a call, runs into a deeper call before its return exactly when its place has a child. */
  ghost predicate LeafFact(crumbs: seq<Crumb>, places: seq<Place>, i: nat) {
    && i < |crumbs| && i < |places|
    && (crumbs[i].kind == Call ==>
         places[i].Place? && (CallsDeeper(crumbs[i + 1..], crumbs[i].depth) <==> places[i].hasChild))
  }

  lemma LeafOfOp(c: Crumb, tail: seq<Crumb>, rest: seq<Crumb>, qs: seq<Place>, i: nat)
    requires c.kind == Step && |qs| == |tail| && i < 1 + |tail|
    requires i > 0 ==> LeafFact(tail + rest, qs, i - 1)
    ensures LeafFact([c] + tail + rest, [NoPlace] + qs, i)
  {
    if i > 0 {
      assert ([c] + tail + rest)[i + 1..] == (tail + rest)[i..];
    }
  }

  lemma LeafOfFirst(first: Crumb, inner: seq<Crumb>, end: Crumb, tail: seq<Crumb>, rest: seq<Crumb>,
                    place: Place, ps: seq<Place>, qs: seq<Place>)
    requires |ps| == |inner| && |qs| == |tail| && place.Place? && end.kind == Return
    requires CallsDeeper(inner + ([end] + (tail + rest)), first.depth) <==> place.hasChild
    ensures LeafFact([first] + inner + [end] + tail + rest, [place] + ps + [NoPlace] + qs, 0)
    ensures LeafFact([first] + inner + [end] + tail + rest, [place] + ps + [NoPlace] + qs, |inner| + 1)
  {
    SuffixAt(first, inner, end, tail, rest, 0);
    PartAt(first, inner, end, tail, |inner| + 1);
    assert (inner + ([end] + (tail + rest)))[0..] == inner + ([end] + (tail + rest));
  }

  lemma LeafOfInner(first: Crumb, inner: seq<Crumb>, end: Crumb, tail: seq<Crumb>, rest: seq<Crumb>,
                    place: Place, ps: seq<Place>, qs: seq<Place>, i: nat)
    requires |ps| == |inner| && i < |inner|
    requires LeafFact(inner + ([end] + (tail + rest)), ps, i)
    ensures LeafFact([first] + inner + [end] + tail + rest, [place] + ps + [NoPlace] + qs, i + 1)
  {
    PartAt(first, inner, end, tail, i + 1);
    SuffixAt(first, inner, end, tail, rest, i + 1);
    assert ([place] + ps + [NoPlace] + qs)[i + 1] == ps[i];
  }

  lemma LeafOfTail(first: Crumb, inner: seq<Crumb>, end: Crumb, tail: seq<Crumb>, rest: seq<Crumb>,
                   place: Place, ps: seq<Place>, qs: seq<Place>, i: nat)
    requires |ps| == |inner| && |qs| == |tail| && i < |tail|
    requires LeafFact(tail + rest, qs, i)
    ensures LeafFact([first] + inner + [end] + tail + rest, [place] + ps + [NoPlace] + qs, |inner| + 2 + i)
  {
    PartAt(first, inner, end, tail, |inner| + 2 + i);
    PartAt(place, ps, NoPlace, qs, |inner| + 2 + i);
    SuffixAt(first, inner, end, tail, rest, |inner| + 2 + i);
  }

  lemma {:induction false} LeafInChildren(f: Forest, depth: nat, parent: string, at: nat, rest: seq<Crumb>, i: nat)
    requires f.Invoke? && i < |Print(f.children, depth + 1)|
    ensures LeafFact(Print(f, depth) + rest, Places(f, depth, parent, at), i + 1)
    decreases f, 0
  {
    var inner, end, tail := Print(f.children, depth + 1), Crumb(Return, depth, None), Print(f.next, depth);
    var ps := Places(f.children, depth + 1, Label(f.name, at), at + 1);
    var qs := Places(f.next, depth, parent, at + |inner| + 2);
    LeafAt(f.children, depth + 1, Label(f.name, at), at + 1, [end] + (tail + rest), i);
    InvokeParts(f, depth, parent, at, inner, tail, ps, qs);
    LeafOfInner(Crumb(Call, depth, f.name), inner, end, tail, rest, Place(HasCall(f.children), HasCall(f.next), parent), ps, qs, i);
  }

  lemma {:induction false} LeafInNext(f: Forest, depth: nat, parent: string, at: nat, rest: seq<Crumb>, i: nat)
    requires f.Invoke? && i < |Print(f.next, depth)|
    ensures LeafFact(Print(f, depth) + rest, Places(f, depth, parent, at), |Print(f.children, depth + 1)| + 2 + i)
    decreases f, 0
  {
    var inner, end, tail := Print(f.children, depth + 1), Crumb(Return, depth, None), Print(f.next, depth);
    var ps := Places(f.children, depth + 1, Label(f.name, at), at + 1);
    var qs := Places(f.next, depth, parent, at + |inner| + 2);
    LeafAt(f.next, depth, parent, at + |inner| + 2, rest, i);
    InvokeParts(f, depth, parent, at, inner, tail, ps, qs);
    LeafOfTail(Crumb(Call, depth, f.name), inner, end, tail, rest, Place(HasCall(f.children), HasCall(f.next), parent), ps, qs, i);
  }

  lemma LeafOfItself(f: Forest, depth: nat, parent: string, at: nat, rest: seq<Crumb>)
    requires f.Invoke?
    ensures LeafFact(Print(f, depth) + rest, Places(f, depth, parent, at), 0)
    ensures LeafFact(Print(f, depth) + rest, Places(f, depth, parent, at), |Print(f.children, depth + 1)| + 1)
  {
    var inner, end, tail := Print(f.children, depth + 1), Crumb(Return, depth, None), Print(f.next, depth);
    var ps := Places(f.children, depth + 1, Label(f.name, at), at + 1);
    var qs := Places(f.next, depth, parent, at + |inner| + 2);
    ScanFindsChild(f.children, depth, tail + rest);
    InvokeParts(f, depth, parent, at, inner, tail, ps, qs);
    LeafOfFirst(Crumb(Call, depth, f.name), inner, end, tail, rest, Place(HasCall(f.children), HasCall(f.next), parent), ps, qs);
  }

  lemma {:induction false} LeafAt(f: Forest, depth: nat, parent: string, at: nat, rest: seq<Crumb>, i: nat)
    requires i < |Print(f, depth)|
    ensures LeafFact(Print(f, depth) + rest, Places(f, depth, parent, at), i)
    decreases f, 1
  {
    match f {
      case Op(a, next) =>
        if i > 0 {
          LeafAt(next, depth, parent, at + 1, rest, i - 1);
        }
        LeafOfOp(Crumb(Step, a, None), Print(next, depth), rest, Places(next, depth, parent, at + 1), i);
      case Invoke(_, children, next) =>
        var n := |Print(children, depth + 1)|;
        if 0 < i <= n {
          LeafInChildren(f, depth, parent, at, rest, i - 1);
        } else if i > n + 1 {
          LeafInNext(f, depth, parent, at, rest, i - n - 2);
        } else {
          LeafOfItself(f, depth, parent, at, rest);
        }
    }
  }

  // ----- Contexts -----

  lemma ContextStep(before: seq<Crumb>, c: Crumb, depth: int)
    ensures Context(before + [c], depth)
         == if c.kind == Call && c.depth == depth then NameAt(c, |before|) else Context(before, depth)
  {
    assert (before + [c])[..|before|] == before;
  }

  /** Looking for a shallower call skips a whole printed forest. */
  lemma {:induction false} ContextSkips(before: seq<Crumb>, f: Forest, depth: nat, parentDepth: int)
    requires parentDepth < depth
    ensures Context(before + Print(f, depth), parentDepth) == Context(before, parentDepth)
    decreases f
  {
    match f {
      case Nil =>
        assert before + Print(f, depth) == before;
      case Op(at, next) =>
        var c := Crumb(Step, at, None);
        ContextSkips(before + [c], next, depth, parentDepth);
        ContextStep(before, c, parentDepth);
        Associative(before, [c], Print(next, depth));
      case Invoke(name, children, next) =>
        var first, inner, end := Crumb(Call, depth, name), Print(children, depth + 1), Crumb(Return, depth, None);
        ContextSkips(before + [first], children, depth + 1, parentDepth);
        PassCall(before, name, children, depth, parentDepth);
        ContextSkips(before + [first] + inner + [end], next, depth, parentDepth);
        Bracketed(before, first, inner, end, Print(next, depth));
    }
  }

  lemma Bracketed<T>(before: seq<T>, c: T, inner: seq<T>, e: T, tail: seq<T>)
    ensures before + ([c] + inner + [e] + tail) == before + [c] + inner + [e] + tail
  {
  }

  lemma PassCall(before: seq<Crumb>, name: Option<string>, children: Forest, depth: nat, parentDepth: int)
    requires parentDepth < depth
    requires var c := Crumb(Call, depth, name);
      Context(before + [c] + Print(children, depth + 1), parentDepth) == Context(before + [c], parentDepth)
    ensures Context(before + [Crumb(Call, depth, name)] + Print(children, depth + 1) + [Crumb(Return, depth, None)], parentDepth)
         == Context(before, parentDepth)
  {
    var first := Crumb(Call, depth, name);
    ContextStep(before, first, parentDepth);
    ContextStep(before + [first] + Print(children, depth + 1), Crumb(Return, depth, None), parentDepth);
  }

  /** The context of crumb i, if a call, is the name of its parent. */
  ghost predicate ContextFact(before: seq<Crumb>, crumbs: seq<Crumb>, places: seq<Place>, i: nat) {
    && i < |crumbs| && i < |places|
    && (crumbs[i].kind == Call ==>
         places[i].Place? && Context(before + crumbs[..i], crumbs[i].depth - 1) == places[i].parent)
  }

  lemma ContextOfOp(before: seq<Crumb>, c: Crumb, tail: seq<Crumb>, qs: seq<Place>, i: nat)
    requires c.kind == Step && i < 1 + |tail| && i < 1 + |qs|
    requires i > 0 ==> ContextFact(before + [c], tail, qs, i - 1)
    ensures ContextFact(before, [c] + tail, [NoPlace] + qs, i)
  {
    if i > 0 {
      assert before + ([c] + tail)[..i] == before + [c] + tail[..i - 1];
    }
  }

  lemma ContextOfFirst(before: seq<Crumb>, first: Crumb, inner: seq<Crumb>, end: Crumb, tail: seq<Crumb>,
                       place: Place, ps: seq<Place>, qs: seq<Place>)
    requires |ps| == |inner| && place.Place? && end.kind == Return && Context(before, first.depth - 1) == place.parent
    ensures ContextFact(before, [first] + inner + [end] + tail, [place] + ps + [NoPlace] + qs, 0)
    ensures ContextFact(before, [first] + inner + [end] + tail, [place] + ps + [NoPlace] + qs, |inner| + 1)
  {
    PrefixAt(before, first, inner, end, tail, 0);
    PartAt(first, inner, end, tail, |inner| + 1);
  }

  lemma ContextOfInner(before: seq<Crumb>, first: Crumb, inner: seq<Crumb>, end: Crumb, tail: seq<Crumb>,
                       place: Place, ps: seq<Place>, qs: seq<Place>, i: nat)
    requires |ps| == |inner| && i < |inner| && ContextFact(before + [first], inner, ps, i)
    ensures ContextFact(before, [first] + inner + [end] + tail, [place] + ps + [NoPlace] + qs, i + 1)
  {
    PartAt(first, inner, end, tail, i + 1);
    PrefixAt(before, first, inner, end, tail, i + 1);
    assert ([place] + ps + [NoPlace] + qs)[i + 1] == ps[i];
  }

  lemma ContextOfTail(before: seq<Crumb>, first: Crumb, inner: seq<Crumb>, end: Crumb, tail: seq<Crumb>,
                      place: Place, ps: seq<Place>, qs: seq<Place>, i: nat)
    requires |ps| == |inner| && |qs| == |tail| && i < |tail|
    requires ContextFact(before + [first] + inner + [end], tail, qs, i)
    ensures ContextFact(before, [first] + inner + [end] + tail, [place] + ps + [NoPlace] + qs, |inner| + 2 + i)
  {
    PartAt(first, inner, end, tail, |inner| + 2 + i);
    PartAt(place, ps, NoPlace, qs, |inner| + 2 + i);
    PrefixAt(before, first, inner, end, tail, |inner| + 2 + i);
  }

  lemma {:induction false} ContextInChildren(before: seq<Crumb>, f: Forest, depth: nat, parent: string, i: nat)
    requires f.Invoke? && i < |Print(f.children, depth + 1)|
    ensures ContextFact(before, Print(f, depth), Places(f, depth, parent, |before|), i + 1)
    decreases f, 0
  {
    var at, first := |before|, Crumb(Call, depth, f.name);
    var inner, end, tail := Print(f.children, depth + 1), Crumb(Return, depth, None), Print(f.next, depth);
    var ps := Places(f.children, depth + 1, Label(f.name, at), at + 1);
    var qs := Places(f.next, depth, parent, at + |inner| + 2);
    ContextStep(before, first, depth);
    ContextAt(before + [first], f.children, depth + 1, Label(f.name, at), i);
    InvokeParts(f, depth, parent, at, inner, tail, ps, qs);
    ContextOfInner(before, first, inner, end, tail, Place(HasCall(f.children), HasCall(f.next), parent), ps, qs, i);
  }

  lemma {:induction false} ContextInNext(before: seq<Crumb>, f: Forest, depth: nat, parent: string, i: nat)
    requires f.Invoke? && i < |Print(f.next, depth)| && Context(before, depth - 1) == parent
    ensures ContextFact(before, Print(f, depth), Places(f, depth, parent, |before|), |Print(f.children, depth + 1)| + 2 + i)
    decreases f, 0
  {
    var at, first := |before|, Crumb(Call, depth, f.name);
    var inner, end, tail := Print(f.children, depth + 1), Crumb(Return, depth, None), Print(f.next, depth);
    var ps := Places(f.children, depth + 1, Label(f.name, at), at + 1);
    var qs := Places(f.next, depth, parent, at + |inner| + 2);
    ContextSkips(before + [first], f.children, depth + 1, depth - 1);
    PassCall(before, f.name, f.children, depth, depth - 1);
    ContextAt(before + [first] + inner + [end], f.next, depth, parent, i);
    InvokeParts(f, depth, parent, at, inner, tail, ps, qs);
    ContextOfTail(before, first, inner, end, tail, Place(HasCall(f.children), HasCall(f.next), parent), ps, qs, i);
  }

  lemma ContextOfItself(before: seq<Crumb>, f: Forest, depth: nat, parent: string)
    requires f.Invoke? && Context(before, depth - 1) == parent
    ensures ContextFact(before, Print(f, depth), Places(f, depth, parent, |before|), 0)
    ensures ContextFact(before, Print(f, depth), Places(f, depth, parent, |before|), |Print(f.children, depth + 1)| + 1)
  {
    var at, first := |before|, Crumb(Call, depth, f.name);
    var inner, end, tail := Print(f.children, depth + 1), Crumb(Return, depth, None), Print(f.next, depth);
    var ps := Places(f.children, depth + 1, Label(f.name, at), at + 1);
    var qs := Places(f.next, depth, parent, at + |inner| + 2);
    InvokeParts(f, depth, parent, at, inner, tail, ps, qs);
    ContextOfFirst(before, first, inner, end, tail, Place(HasCall(f.children), HasCall(f.next), parent), ps, qs);
  }

  lemma ContextOfOpNode(before: seq<Crumb>, f: Forest, depth: nat, parent: string, i: nat)
    requires f.Op? && i < |Print(f, depth)|
    requires i > 0 ==>
               ContextFact(before + [Crumb(Step, f.at, None)], Print(f.next, depth), Places(f.next, depth, parent, |before| + 1), i - 1)
    ensures ContextFact(before, Print(f, depth), Places(f, depth, parent, |before|), i)
  {
    ContextOfOp(before, Crumb(Step, f.at, None), Print(f.next, depth), Places(f.next, depth, parent, |before| + 1), i);
  }

  lemma SizeOfInvoke(f: Forest, depth: nat)
    requires f.Invoke?
    ensures |Print(f, depth)| == |Print(f.children, depth + 1)| + 2 + |Print(f.next, depth)|
  {
  }

  lemma {:induction false} ContextAt(before: seq<Crumb>, f: Forest, depth: nat, parent: string, i: nat)
    requires Context(before, depth - 1) == parent && i < |Print(f, depth)|
    ensures ContextFact(before, Print(f, depth), Places(f, depth, parent, |before|), i)
    decreases f, 1
  {
    if f.Op? {
      if i > 0 {
        ContextStep(before, Crumb(Step, f.at, None), depth - 1);
        ContextAt(before + [Crumb(Step, f.at, None)], f.next, depth, parent, i - 1);
      }
      ContextOfOpNode(before, f, depth, parent, i);
    } else {
      var n := |Print(f.children, depth + 1)|;
      SizeOfInvoke(f, depth);
      if 0 < i <= n {
        ContextInChildren(before, f, depth, parent, i - 1);
      } else if i > n + 1 {
        ContextInNext(before, f, depth, parent, i - n - 2);
      } else {
        ContextOfItself(before, f, depth, parent);
      }
    }
  }

  // ----- The modes of a printed trace -----

  predicate IsChildOf(crumbs: seq<Crumb>, places: seq<Place>, j: nat, depth: nat, parent: string)
    requires j < |crumbs| == |places|
  {
    crumbs[j].kind == Call && crumbs[j].depth == depth && places[j].Place? && places[j].parent == parent
  }

  /** The first call of a forest. */
  lemma {:induction false} FirstCallAt(f: Forest, depth: nat, parent: string, at: nat) returns (j: nat)
    requires HasCall(f)
    ensures j < |Print(f, depth)| && IsChildOf(Print(f, depth), Places(f, depth, parent, at), j, depth, parent)
  {
    match f
    case Op(_, next) =>
      j := FirstCallAt(next, depth, parent, at + 1);
      j := j + 1;
    case Invoke(_, _, _) =>
      j := 0;
  }

  /** Crumb i is a call with a later sibling: there is a later call at its depth whose parent has the same name. */
  ghost predicate SiblingFact(crumbs: seq<Crumb>, places: seq<Place>, i: nat) {
    && i < |crumbs| == |places|
    && (places[i].Place? && places[i].hasLaterSibling ==>
         exists j :: i < j < |crumbs| && SameParent(crumbs, places, i, j))
  }

  predicate SameParent(crumbs: seq<Crumb>, places: seq<Place>, i: nat, j: nat)
    requires i < |crumbs| == |places| && j < |places|
  {
    && crumbs[j].kind == Call && crumbs[j].depth == crumbs[i].depth
    && places[i].Place? && places[j].Place? && places[j].parent == places[i].parent
  }

  lemma Shifted(crumbs: seq<Crumb>, places: seq<Place>, front: seq<Crumb>, fs: seq<Place>, back: seq<Crumb>, bs: seq<Place>, i: nat)
    requires SiblingFact(crumbs, places, i) && |front| == |fs| && |back| == |bs|
    ensures SiblingFact(front + crumbs + back, fs + places + bs, |front| + i)
  {
    var all, ps, n := front + crumbs + back, fs + places + bs, |front|;
    assert all[n + i] == crumbs[i] && ps[n + i] == places[i];
    if places[i].Place? && places[i].hasLaterSibling {
      var j :| i < j < |crumbs| && SameParent(crumbs, places, i, j);
      assert all[n + j] == crumbs[j] && ps[n + j] == places[j];
      assert SameParent(all, ps, n + i, n + j);
    }
  }

  lemma {:induction false} SiblingAt(f: Forest, depth: nat, parent: string, at: nat, i: nat)
    requires i < |Print(f, depth)|
    ensures SiblingFact(Print(f, depth), Places(f, depth, parent, at), i)
    decreases f
  {
    match f {
      case Op(a, next) =>
        var c, tail, qs := Crumb(Step, a, None), Print(next, depth), Places(next, depth, parent, at + 1);
        if i > 0 {
          SiblingAt(next, depth, parent, at + 1, i - 1);
          Shifted(tail, qs, [c], [NoPlace], [], [], i - 1);
          assert [c] + tail + [] == [c] + tail && [NoPlace] + qs + [] == [NoPlace] + qs;
        }
      case Invoke(name, children, next) =>
        var inner, tail := Print(children, depth + 1), Print(next, depth);
        if 0 < i <= |inner| {
          SiblingAt(children, depth + 1, Label(name, at), at + 1, i - 1);
        } else if i > |inner| + 1 {
          SiblingAt(next, depth, parent, at + |inner| + 2, i - |inner| - 2);
        }
        var ps, qs := Places(children, depth + 1, Label(name, at), at + 1), Places(next, depth, parent, at + |inner| + 2);
        InvokeParts(f, depth, parent, at, inner, tail, ps, qs);
        if HasCall(next) {
          var j := FirstCallAt(next, depth, parent, at + |inner| + 2);
        }
        SiblingOfCall(Crumb(Call, depth, name), inner, Crumb(Return, depth, None), tail,
                      Place(HasCall(children), HasCall(next), parent), ps, qs, i);
    }
  }

  lemma SiblingOfCall(first: Crumb, inner: seq<Crumb>, end: Crumb, tail: seq<Crumb>,
                      place: Place, ps: seq<Place>, qs: seq<Place>, i: nat)
    requires |ps| == |inner| && |qs| == |tail| && i < |inner| + 2 + |tail| && place.Place?
    requires place.hasLaterSibling ==>
               exists j :: 0 <= j < |tail| && IsChildOf(tail, qs, j, first.depth, place.parent)
    requires 0 < i <= |inner| ==> SiblingFact(inner, ps, i - 1)
    requires i > |inner| + 1 ==> SiblingFact(tail, qs, i - |inner| - 2)
    ensures SiblingFact([first] + inner + [end] + tail, [place] + ps + [NoPlace] + qs, i)
  {
    var all, places := [first] + inner + [end] + tail, [place] + ps + [NoPlace] + qs;
    PartAt(first, inner, end, tail, i);
    PartAt(place, ps, NoPlace, qs, i);
    if i == 0 && place.hasLaterSibling {
      var j :| 0 <= j < |tail| && IsChildOf(tail, qs, j, first.depth, place.parent);
      PartAt(first, inner, end, tail, |inner| + 2 + j);
      PartAt(place, ps, NoPlace, qs, |inner| + 2 + j);
      assert SameParent(all, places, 0, |inner| + 2 + j);
    } else if 0 < i <= |inner| {
      Shifted(inner, ps, [first], [place], [end] + tail, [NoPlace] + qs, i - 1);
      Associative([first] + inner, [end], tail);
      Associative([place] + ps, [NoPlace], qs);
    } else if i > |inner| + 1 {
      Shifted(tail, qs, [first] + inner + [end], [place] + ps + [NoPlace], [], [], i - |inner| - 2);
      assert all + [] == all && places + [] == places;
    }
  }

  /** No later call at the same depth has a parent of the same name. */
  ghost predicate NameNotReused(crumbs: seq<Crumb>, places: seq<Place>, i: nat)
    requires i < |crumbs| == |places|
  {
    forall j :: i < j < |crumbs| ==> !SameParent(crumbs, places, i, j)
  }

  /** Later calls with the key of call i are those whose parents have the same name. */
  lemma SameKeySameParent(f: Forest, depth: nat, i: nat, j: nat, crumbs: seq<Crumb>, places: seq<Place>)
    requires crumbs == Print(f, depth) && places == Places(f, depth, "root", 0) && i < |crumbs| && j < |crumbs|
    requires crumbs[i].kind == Call
    ensures SameParent(crumbs, places, i, j) <==> crumbs[j].kind == Call && KeyOf(crumbs, j) == KeyOf(crumbs, i)
  {
    KeyIsParent(f, depth, i);
    if crumbs[j].kind == Call {
      KeyIsParent(f, depth, j);
    }
  }

  lemma LastOfKeyMeansNotReused(f: Forest, depth: nat, i: nat, crumbs: seq<Crumb>, places: seq<Place>)
    requires crumbs == Print(f, depth) && places == Places(f, depth, "root", 0) && i < |crumbs|
    requires crumbs[i].kind == Call
    ensures IsLastOfKey(crumbs, i) <==> NameNotReused(crumbs, places, i)
  {
    forall j | i < j < |crumbs|
      ensures SameParent(crumbs, places, i, j) <==> crumbs[j].kind == Call && KeyOf(crumbs, j) == KeyOf(crumbs, i)
    {
      SameKeySameParent(f, depth, i, j, crumbs, places);
    }
  }

  lemma LaterSiblingReusesName(f: Forest, depth: nat, i: nat, crumbs: seq<Crumb>, places: seq<Place>)
    requires crumbs == Print(f, depth) && places == Places(f, depth, "root", 0) && i < |crumbs|
    requires places[i].Place? && places[i].hasLaterSibling
    ensures !NameNotReused(crumbs, places, i)
  {
    SiblingAt(f, depth, "root", 0, i);
  }

  lemma LeafMeansNoChild(f: Forest, depth: nat, i: nat, crumbs: seq<Crumb>, places: seq<Place>)
    requires crumbs == Print(f, depth) && places == Places(f, depth, "root", 0) && i < |crumbs|
    requires crumbs[i].kind == Call
    ensures places[i].Place? && (CallsDeeper(crumbs[i + 1..], crumbs[i].depth) <==> places[i].hasChild)
  {
    LeafAt(f, depth, "root", 0, [], i);
    assert crumbs + [] == crumbs;
  }

  /**
   * On a printed trace a call is shown in full exactly when its node has no child call. Any other call
   * is shown in medium detail exactly when no later call at its depth has a parent of the same name;
   * in particular it is then the last call of its parent.
   */
  lemma ModesFollowTheForest(f: Forest, depth: nat, i: nat)
    requires i < |Print(f, depth)| && Print(f, depth)[i].kind == Call
    ensures var crumbs, places := Print(f, depth), Places(f, depth, "root", 0);
      && places[i].Place?
      && (ModeOf(crumbs, i) == Full <==> !places[i].hasChild)
      && (ModeOf(crumbs, i) == Medium <==> places[i].hasChild && NameNotReused(crumbs, places, i))
      && (ModeOf(crumbs, i) == Medium ==> !places[i].hasLaterSibling)
  {
    var crumbs, places := Print(f, depth), Places(f, depth, "root", 0);
    LeafMeansNoChild(f, depth, i, crumbs, places);
    LastOfKeyMeansNotReused(f, depth, i, crumbs, places);
    if places[i].hasLaterSibling {
      LaterSiblingReusesName(f, depth, i, crumbs, places);
    }
  }

  lemma KeyIsParent(f: Forest, depth: nat, i: nat)
    requires i < |Print(f, depth)| && Print(f, depth)[i].kind == Call
    ensures var place := Places(f, depth, "root", 0)[i];
      place.Place? && KeyOf(Print(f, depth), i) == (Print(f, depth)[i].depth - 1, place.parent)
  {
    var crumbs := Print(f, depth);
    ContextAt([], f, depth, "root", i);
    KeyFromContext(crumbs, i);
  }

  lemma KeyFromContext(crumbs: seq<Crumb>, i: nat)
    requires i < |crumbs|
    ensures KeyOf(crumbs, i) == (crumbs[i].depth - 1, Context([] + crumbs[..i], crumbs[i].depth - 1))
  {
    assert [] + crumbs[..i] == crumbs[..i];
  }

  // ----- Steps and returns -----

  /** Steps stand at the depth of the calls beside them. */
  predicate StepsInPlace(f: Forest, depth: nat) {
    match f
    case Nil => true
    case Op(at, next) => at == depth && StepsInPlace(next, depth)
    case Invoke(_, children, next) => StepsInPlace(children, depth + 1) && StepsInPlace(next, depth)
  }

  /** Which crumbs are steps with nothing behind them in their call. */
  function LastSteps(f: Forest, depth: nat): (r: seq<bool>)
    ensures |r| == |Print(f, depth)|
  {
    match f
    case Nil => []
    case Op(_, next) => [next == Nil] + LastSteps(next, depth)
    case Invoke(_, children, next) => [false] + LastSteps(children, depth + 1) + [false] + LastSteps(next, depth)
  }

  /** Nothing follows, or something at a smaller depth. */
  predicate Shallow(rest: seq<Crumb>, depth: nat) {
    rest == [] || rest[0].depth < depth
  }

  /** Which crumbs are steps with nothing at their depth behind them; `tail` comes after all of them. */
  function StepsUp(crumbs: seq<Crumb>, tail: seq<Crumb>): (r: seq<bool>)
    ensures |r| == |crumbs|
  {
    if crumbs == [] then []
    else [crumbs[0].kind == Step && Shallow(crumbs[1..] + tail, crumbs[0].depth)] + StepsUp(crumbs[1..], tail)
  }

  lemma {:induction false} StepsUpConcat(a: seq<Crumb>, b: seq<Crumb>, tail: seq<Crumb>)
    ensures StepsUp(a + b, tail) == StepsUp(a, b + tail) + StepsUp(b, tail)
  {
    if a == [] {
      assert a + b == b;
    } else {
      assert (a + b)[1..] == a[1..] + b && (a + b)[0] == a[0];
      StepsUpConcat(a[1..], b, tail);
      Associative(a[1..], b, tail);
    }
  }

  lemma OneStepUp(c: Crumb, tail: seq<Crumb>)
    ensures StepsUp([c], tail) == [c.kind == Step && Shallow(tail, c.depth)]
  {
    assert [c][1..] == [] && [] + tail == tail;
  }

  lemma FirstIsDeep(f: Forest, depth: nat, tail: seq<Crumb>)
    requires StepsInPlace(f, depth) && Shallow(tail, depth)
    ensures Shallow(Print(f, depth) + tail, depth) <==> f == Nil
  {
    assert f == Nil ==> Print(f, depth) + tail == tail;
  }

  lemma {:induction false} StepsOfForest(f: Forest, depth: nat, tail: seq<Crumb>)
    requires StepsInPlace(f, depth) && Shallow(tail, depth)
    ensures StepsUp(Print(f, depth), tail) == LastSteps(f, depth)
    decreases f
  {
    match f
    case Nil =>
    case Op(at, next) =>
      var c := Crumb(Step, at, None);
      StepsUpConcat([c], Print(next, depth), tail);
      OneStepUp(c, Print(next, depth) + tail);
      FirstIsDeep(next, depth, tail);
      StepsOfForest(next, depth, tail);
    case Invoke(name, children, next) =>
      var first, end := Crumb(Call, depth, name), Crumb(Return, depth, None);
      StepsOfForest(next, depth, tail);
      StepsOfForest(children, depth + 1, [end] + (Print(next, depth) + tail));
      StepsOfCall(first, Print(children, depth + 1), end, Print(next, depth), tail);
  }

  lemma StepsOfCall(first: Crumb, inner: seq<Crumb>, end: Crumb, later: seq<Crumb>, tail: seq<Crumb>)
    requires first.kind == Call && end.kind == Return
    ensures StepsUp([first] + inner + [end] + later, tail)
         == [false] + StepsUp(inner, [end] + (later + tail)) + [false] + StepsUp(later, tail)
  {
    StepsUpConcat([first] + inner + [end], later, tail);
    StepsUpConcat([first] + inner, [end], later + tail);
    StepsUpConcat([first], inner, [end] + (later + tail));
    OneStepUp(first, inner + ([end] + (later + tail)));
    OneStepUp(end, later + tail);
  }

  lemma {:induction false} StepsUpAt(crumbs: seq<Crumb>, i: nat)
    requires i < |crumbs|
    ensures StepsUp(crumbs, [])[i]
       <==> crumbs[i].kind == Step && (i == |crumbs| - 1 || crumbs[i + 1].depth < crumbs[i].depth)
  {
    assert crumbs[1..] + [] == crumbs[1..];
    if i > 0 {
      StepsUpAt(crumbs[1..], i - 1);
    }
  }

  /** Returns are condensed; of the steps of each call, the last one is in full if nothing follows it, all others are condensed. */
  lemma StepsFollowTheForest(f: Forest, depth: nat, i: nat)
    requires StepsInPlace(f, depth) && i < |Print(f, depth)|
    ensures Print(f, depth)[i].kind == Return ==> ModeOf(Print(f, depth), i) == Condensed
    ensures Print(f, depth)[i].kind == Step ==> ModeOf(Print(f, depth), i) == if LastSteps(f, depth)[i] then Full else Condensed
  {
    StepsOfForest(f, depth, []);
    StepsUpAt(Print(f, depth), i);
  }

  // ----- Calls of the same name -----

  /** Two calls of f, each with one call of g, which in turn calls h. */
  function Twice(): Forest {
    var body := Invoke(Some("g"), Invoke(Some("h"), Nil, Nil), Nil);
    Invoke(Some("f"), body, Invoke(Some("f"), body, Nil))
  }

  /** The first g is the last call of its parent, but is condensed: the second f has the same name. */
  lemma LastCallCanBeCondensed()
    ensures var crumbs, places := Print(Twice(), 0), Places(Twice(), 0, "root", 0);
      && |crumbs| == 12 && crumbs[1] == Crumb(Call, 1, Some("g"))
      && places[1] == Place(true, false, "f") && ModeOf(crumbs, 1) == Condensed
  {
    var crumbs, places := Print(Twice(), 0), Places(Twice(), 0, "root", 0);
    var inner := Invoke(Some("h"), Nil, Nil);
    var body := Invoke(Some("g"), inner, Nil);
    var second := Invoke(Some("f"), body, Nil);
    assert Print(inner, 2) == [Crumb(Call, 2, Some("h")), Crumb(Return, 2, None)];
    assert Print(body, 1) == [Crumb(Call, 1, Some("g"))] + Print(inner, 2) + [Crumb(Return, 1, None)];
    assert Print(second, 0) == [Crumb(Call, 0, Some("f"))] + Print(body, 1) + [Crumb(Return, 0, None)];
    assert crumbs == [Crumb(Call, 0, Some("f"))] + Print(body, 1) + [Crumb(Return, 0, None)] + Print(second, 0);
    assert crumbs[1] == Print(body, 1)[0] == crumbs[7];
    assert places[1] == Places(body, 1, "f", 1)[0] == Place(true, false, "f");
    assert Places(second, 0, "root", 6)[1] == Places(body, 1, "f", 7)[0];
    assert places[7] == Places(second, 0, "root", 6)[1];
    assert SameParent(crumbs, places, 1, 7);
    ModesFollowTheForest(Twice(), 0, 1);
  }
}
