/**
 * The sort that puts imported specs before importing ones, on a list that may hold a spec twice:
 * every copy counts its imports again, and every copy has them taken off again.
 */
module TopologicalSort {
  import opened SpecFiles
  import opened Graphs
  import opened SpecGraph

  /** How often `s` is among the first `i` entries. */
  ghost function CopiesBefore(specs: seq<Path>, i: nat, s: Path): nat
    requires i <= |specs|
  {
    if i == 0 then 0 else CopiesBefore(specs, i - 1, s) + if specs[i - 1] == s then 1 else 0
  }

  ghost function Copies(specs: seq<Path>, s: Path): nat {
    CopiesBefore(specs, |specs|, s)
  }

  /** The number of imports that are in the list and not emitted yet. */
  function Pending(imports: seq<Path>, specs: seq<Path>, emitted: seq<Path>): nat {
    if imports == [] then 0
    else
      var last := imports[|imports| - 1];
      Pending(imports[..|imports| - 1], specs, emitted) + if last in specs && last !in emitted then 1 else 0
  }

  function Waits(specs: seq<Path>, forward: Graph, s: Path, emitted: seq<Path>): nat {
    Pending(Get(forward, s), specs, emitted)
  }

  /** All imports of `s` that are in the list have been emitted. */
  ghost predicate Free(specs: seq<Path>, forward: Graph, s: Path, emitted: seq<Path>) {
    forall p :: p in Get(forward, s) && p in specs ==> p in emitted
  }

  /** A spec that is in the list more than once imports something in the list. */
  ghost predicate CopiesWait(specs: seq<Path>, forward: Graph) {
    forall i, j :: 0 <= i < j < |specs| && specs[i] == specs[j] ==> !Free(specs, forward, specs[i], [])
  }

  // ----- Counting -----

  lemma {:induction false} PendingZero(imports: seq<Path>, specs: seq<Path>, emitted: seq<Path>)
    ensures Pending(imports, specs, emitted) == 0 <==> forall p :: p in imports && p in specs ==> p in emitted
  {
    if imports != [] {
      var last := |imports| - 1;
      PendingZero(imports[..last], specs, emitted);
      assert imports == imports[..last] + [imports[last]];
    }
  }

  lemma WaitsZero(specs: seq<Path>, forward: Graph, s: Path, emitted: seq<Path>)
    ensures Waits(specs, forward, s, emitted) == 0 <==> Free(specs, forward, s, emitted)
  {
    PendingZero(Get(forward, s), specs, emitted);
  }

  lemma {:induction false} PendingDropsOne(imports: seq<Path>, specs: seq<Path>, emitted: seq<Path>, current: Path)
    requires NoDuplicates(imports) && current in specs && current !in emitted
    ensures Pending(imports, specs, emitted)
         == Pending(imports, specs, emitted + [current]) + if current in imports then 1 else 0
  {
    if imports != [] {
      var last := |imports| - 1;
      PendingDropsOne(imports[..last], specs, emitted, current);
      assert imports == imports[..last] + [imports[last]];
    }
  }

  lemma WaitsDropsOne(specs: seq<Path>, forward: Graph, s: Path, emitted: seq<Path>, current: Path)
    requires SimpleLists(forward) && current in specs && current !in emitted
    ensures Waits(specs, forward, s, emitted)
         == Waits(specs, forward, s, emitted + [current]) + if current in Get(forward, s) then 1 else 0
  {
    PendingDropsOne(Get(forward, s), specs, emitted, current);
  }

  lemma {:induction false} CopiesLeft(specs: seq<Path>, i: nat, j: nat, s: Path)
    requires i <= j <= |specs|
    ensures CopiesBefore(specs, i, s) <= CopiesBefore(specs, j, s)
    ensures CopiesBefore(specs, i, s) < CopiesBefore(specs, j, s) <==> s in specs[i..j]
    decreases j
  {
    if i < j {
      CopiesLeft(specs, i, j - 1, s);
      assert specs[i..j] == specs[i..j - 1] + [specs[j - 1]];
    } else {
      assert specs[i..j] == [];
    }
  }

  lemma CopiesBounds(specs: seq<Path>, i: nat, s: Path)
    requires i <= |specs|
    ensures CopiesBefore(specs, i, s) <= Copies(specs, s)
    ensures s in specs[i..] <==> CopiesBefore(specs, i, s) < Copies(specs, s)
    ensures s in specs <==> Copies(specs, s) > 0
  {
    CopiesLeft(specs, i, |specs|, s);
    CopiesLeft(specs, 0, |specs|, s);
    assert specs[i..|specs|] == specs[i..] && specs[0..|specs|] == specs;
  }

  /** `m` copies of `k`. */
  ghost function Times(m: nat, k: nat): nat {
    if m == 0 then 0 else Times(m - 1, k) + k
  }

  lemma {:induction false} TimesPred(m: nat, k: nat)
    requires k > 0
    ensures Times(m, k) == Times(m, k - 1) + m
  {
    if m > 0 {
      TimesPred(m - 1, k);
    }
  }

  lemma {:induction false} TimesZero(m: nat, k: nat)
    requires m > 0
    ensures Times(m, k) == 0 <==> k == 0
  {
    if m > 1 {
      TimesZero(m - 1, k);
    }
  }

  // ----- In-degrees -----

  /** Every copy of a spec counts each import that it waits for. */
  ghost function Degree(specs: seq<Path>, forward: Graph, emitted: seq<Path>, s: Path): nat {
    Times(Copies(specs, s), Waits(specs, forward, s, emitted))
  }

  ghost predicate Degrees(specs: seq<Path>, forward: Graph, emitted: seq<Path>, inDegree: map<Path, int>) {
    forall s :: s in specs ==> s in inDegree && inDegree[s] == Degree(specs, forward, emitted, s)
  }

  method CountImports(specs: seq<Path>, forward: Graph, s: Path) returns (n: nat)
    ensures n == Waits(specs, forward, s, [])
  {
    n := 0;
    var imports := Get(forward, s);
    for j := 0 to |imports|
      invariant n == Pending(imports[..j], specs, [])
    {
      assert imports[..j + 1][..j] == imports[..j];
      if imports[j] in specs {
        n := n + 1;
      }
    }
    assert imports[..|imports|] == imports;
  }

  method InitialDegrees(specs: seq<Path>, forward: Graph) returns (inDegree: map<Path, int>)
    ensures Degrees(specs, forward, [], inDegree)
  {
    inDegree := map s | s in specs :: 0;
    for i := 0 to |specs|
      invariant forall s :: s in specs ==>
        s in inDegree && inDegree[s] == Times(CopiesBefore(specs, i, s), Waits(specs, forward, s, []))
    {
      var n := CountImports(specs, forward, specs[i]);
      inDegree := inDegree[specs[i] := inDegree[specs[i]] + n];
    }
  }

  /** What is queued: exactly the specs that are free and not emitted. */
  ghost predicate Queued(specs: seq<Path>, forward: Graph, emitted: seq<Path>, queue: seq<Path>) {
    NoDuplicates(queue) && forall s :: s in queue <==> Ready(specs, forward, emitted, s)
  }

  ghost predicate Ready(specs: seq<Path>, forward: Graph, emitted: seq<Path>, s: Path) {
    s in specs && s !in emitted && Free(specs, forward, s, emitted)
  }

  lemma DegreeZero(specs: seq<Path>, forward: Graph, emitted: seq<Path>, s: Path)
    requires s in specs
    ensures Degree(specs, forward, emitted, s) == 0 <==> Free(specs, forward, s, emitted)
  {
    CopiesBounds(specs, 0, s);
    TimesZero(Copies(specs, s), Waits(specs, forward, s, emitted));
    WaitsZero(specs, forward, s, emitted);
  }

  method InitialQueue(specs: seq<Path>, forward: Graph, inDegree: map<Path, int>) returns (queue: seq<Path>)
    requires Degrees(specs, forward, [], inDegree) && CopiesWait(specs, forward)
    ensures Queued(specs, forward, [], queue)
  {
    queue := [];
    for i := 0 to |specs|
      invariant NoDuplicates(queue)
      invariant forall s :: s in queue <==> s in specs[..i] && Free(specs, forward, s, [])
    {
      DegreeZero(specs, forward, [], specs[i]);
      assert specs[..i + 1] == specs[..i] + [specs[i]];
      if inDegree[specs[i]] == 0 {
        assert specs[i] !in specs[..i];
        queue := queue + [specs[i]];
      }
    }
    assert specs[..|specs|] == specs;
  }

  // ----- Emitting one spec -----

  /** The degree of `s` after the first `i` list entries had `current` taken off. */
  ghost function DegreeLeft(specs: seq<Path>, forward: Graph, emitted: seq<Path>, current: Path, i: nat, s: Path): int
    requires i <= |specs|
  {
    Degree(specs, forward, emitted, s) - if current in Get(forward, s) then CopiesBefore(specs, i, s) else 0
  }

  ghost predicate PartlyTaken(specs: seq<Path>, forward: Graph, emitted: seq<Path>, current: Path,
                              i: nat, inDegree: map<Path, int>)
    requires i <= |specs|
  {
    forall s :: s in specs ==> s in inDegree && inDegree[s] == DegreeLeft(specs, forward, emitted, current, i, s)
  }

  /** After all copies, the degree is what it should be with `current` emitted. */
  lemma DegreeLeftAtEnd(specs: seq<Path>, forward: Graph, emitted: seq<Path>, current: Path, s: Path)
    requires SimpleLists(forward) && current in specs && current !in emitted
    ensures DegreeLeft(specs, forward, emitted, current, |specs|, s) == Degree(specs, forward, emitted + [current], s)
  {
    WaitsDropsOne(specs, forward, s, emitted, current);
    if current in Get(forward, s) {
      TimesPred(Copies(specs, s), Waits(specs, forward, s, emitted));
    }
  }

  /** The degree reaches zero exactly when the last copy gives up the last import waited for. */
  lemma ZeroAtLastCopy(specs: seq<Path>, forward: Graph, emitted: seq<Path>, current: Path, i: nat)
    requires SimpleLists(forward) && i < |specs| && current in specs && current !in emitted
    requires current in Get(forward, specs[i])
    ensures DegreeLeft(specs, forward, emitted, current, i + 1, specs[i]) == 0 <==>
            Free(specs, forward, specs[i], emitted + [current]) && specs[i] !in specs[i + 1..]
  {
    var s := specs[i];
    CopiesBounds(specs, i + 1, s);
    WaitsDropsOne(specs, forward, s, emitted, current);
    TimesPred(Copies(specs, s), Waits(specs, forward, s, emitted));
    TimesZero(Copies(specs, s), Waits(specs, forward, s, emitted + [current]));
    WaitsZero(specs, forward, s, emitted + [current]);
  }

  /** `s` becomes free with `current`, and all its copies are among the first `i` entries. */
  ghost predicate Released(specs: seq<Path>, forward: Graph, emitted: seq<Path>, current: Path, i: nat, s: Path)
    requires i <= |specs|
  {
    s in specs && s !in specs[i..] && current in Get(forward, s) && Free(specs, forward, s, emitted + [current])
  }

  lemma ReleasedStep(specs: seq<Path>, forward: Graph, emitted: seq<Path>, current: Path, i: nat, s: Path)
    requires i < |specs|
    ensures Released(specs, forward, emitted, current, i + 1, s) <==>
      Released(specs, forward, emitted, current, i, s)
      || (s == specs[i] && Released(specs, forward, emitted, current, i + 1, s))
    ensures !Released(specs, forward, emitted, current, i, specs[i])
  {
    assert specs[i..] == [specs[i]] + specs[i + 1..];
    assert s in specs[i..] <==> s == specs[i] || s in specs[i + 1..];
    assert specs[i..][0] == specs[i];
  }

  ghost predicate QueueUpTo(specs: seq<Path>, forward: Graph, emitted: seq<Path>, current: Path, i: nat,
                            queue: seq<Path>, queue': seq<Path>)
    requires i <= |specs|
  {
    NoDuplicates(queue') && forall s :: s in queue' <==> s in queue || Released(specs, forward, emitted, current, i, s)
  }

  lemma QueueStep(specs: seq<Path>, forward: Graph, emitted: seq<Path>, current: Path, i: nat,
                  queue: seq<Path>, queue0: seq<Path>, queue': seq<Path>)
    requires i < |specs| && QueueUpTo(specs, forward, emitted, current, i, queue, queue0)
    requires Released(specs, forward, emitted, current, i + 1, specs[i]) ==> specs[i] !in queue
    requires queue' == if Released(specs, forward, emitted, current, i + 1, specs[i]) then queue0 + [specs[i]] else queue0
    ensures QueueUpTo(specs, forward, emitted, current, i + 1, queue, queue')
  {
    ReleasedStep(specs, forward, emitted, current, i, specs[i]);
    forall s
      ensures s in queue' <==> s in queue || Released(specs, forward, emitted, current, i + 1, s)
    {
      ReleasedStep(specs, forward, emitted, current, i, s);
    }
  }

  /** What is ready once `current` is emitted: what was ready before, and what it releases. */
  lemma ReadyAfter(specs: seq<Path>, forward: Graph, emitted: seq<Path>, current: Path, s: Path)
    requires Ready(specs, forward, emitted, current)
    requires forall e :: e in emitted ==> Free(specs, forward, e, emitted)
    ensures Ready(specs, forward, emitted + [current], s) <==>
      (Ready(specs, forward, emitted, s) && s != current) || Released(specs, forward, emitted, current, |specs|, s)
    ensures Ready(specs, forward, emitted, s) ==> current !in Get(forward, s)
  {
    assert specs[|specs|..] == [];
    assert forall p :: p in emitted + [current] <==> p in emitted || p == current;
  }

  lemma QueueTail(specs: seq<Path>, forward: Graph, emitted: seq<Path>, current: Path, queue: seq<Path>)
    requires Queued(specs, forward, emitted, [current] + queue)
    ensures Ready(specs, forward, emitted, current)
    ensures QueueUpTo(specs, forward, emitted, current, 0, queue, queue)
    ensures forall s :: s in queue <==> Ready(specs, forward, emitted, s) && s != current
  {
    var q := [current] + queue;
    assert q[0] == current;
    assert forall i :: 0 <= i < |queue| ==> queue[i] == q[i + 1];
    assert forall s :: s in q <==> s == current || s in queue;
    assert specs[0..] == specs;
  }

  /** Takes `current` off the degrees of its importers, once per copy, and queues those now free. */
  method TakeOff(specs: seq<Path>, forward: Graph, ghost emitted: seq<Path>, current: Path,
                 inDegree: map<Path, int>, queue: seq<Path>)
    returns (inDegree': map<Path, int>, queue': seq<Path>)
    requires SimpleLists(forward)
    requires Degrees(specs, forward, emitted, inDegree) && Queued(specs, forward, emitted, [current] + queue)
    requires forall e :: e in emitted ==> Free(specs, forward, e, emitted)
    ensures Degrees(specs, forward, emitted + [current], inDegree')
    ensures Queued(specs, forward, emitted + [current], queue')
  {
    inDegree', queue' := inDegree, queue;
    QueueTail(specs, forward, emitted, current, queue);
    for i := 0 to |specs|
      invariant PartlyTaken(specs, forward, emitted, current, i, inDegree')
      invariant QueueUpTo(specs, forward, emitted, current, i, queue, queue')
    {
      inDegree', queue' := TakeOffCopy(specs, forward, emitted, current, i, inDegree', queue, queue');
    }
    TakenOff(specs, forward, emitted, current, inDegree', queue, queue');
  }

  method TakeOffCopy(specs: seq<Path>, forward: Graph, ghost emitted: seq<Path>, current: Path, i: nat,
                     inDegree: map<Path, int>, ghost queue: seq<Path>, queue0: seq<Path>)
    returns (inDegree': map<Path, int>, queue': seq<Path>)
    requires SimpleLists(forward) && i < |specs| && Ready(specs, forward, emitted, current)
    requires forall e :: e in emitted ==> Free(specs, forward, e, emitted)
    requires forall s :: s in queue ==> Ready(specs, forward, emitted, s)
    requires PartlyTaken(specs, forward, emitted, current, i, inDegree)
    requires QueueUpTo(specs, forward, emitted, current, i, queue, queue0)
    ensures PartlyTaken(specs, forward, emitted, current, i + 1, inDegree')
    ensures QueueUpTo(specs, forward, emitted, current, i + 1, queue, queue')
  {
    inDegree', queue' := inDegree, queue0;
    var spec := specs[i];
    ReadyAfter(specs, forward, emitted, current, spec);
    if current in Get(forward, spec) {
      inDegree' := inDegree'[spec := inDegree'[spec] - 1];
      ZeroAtLastCopy(specs, forward, emitted, current, i);
      if inDegree'[spec] == 0 {
        queue' := queue' + [spec];
      }
    }
    QueueStep(specs, forward, emitted, current, i, queue, queue0, queue');
  }

  lemma TakenOff(specs: seq<Path>, forward: Graph, emitted: seq<Path>, current: Path,
                 inDegree': map<Path, int>, queue: seq<Path>, queue': seq<Path>)
    requires SimpleLists(forward) && Ready(specs, forward, emitted, current)
    requires forall e :: e in emitted ==> Free(specs, forward, e, emitted)
    requires PartlyTaken(specs, forward, emitted, current, |specs|, inDegree')
    requires QueueUpTo(specs, forward, emitted, current, |specs|, queue, queue')
    requires forall s :: s in queue <==> Ready(specs, forward, emitted, s) && s != current
    ensures Degrees(specs, forward, emitted + [current], inDegree')
    ensures Queued(specs, forward, emitted + [current], queue')
  {
    forall s | s in specs
      ensures inDegree'[s] == Degree(specs, forward, emitted + [current], s)
    {
      DegreeLeftAtEnd(specs, forward, emitted, current, s);
    }
    forall s
      ensures s in queue' <==> Ready(specs, forward, emitted + [current], s)
    {
      ReadyAfter(specs, forward, emitted, current, s);
    }
  }

  // ----- The sort -----

  ghost predicate ImportsFirst(specs: seq<Path>, forward: Graph, sorted: seq<Path>) {
    forall k :: 0 <= k < |sorted| ==> Free(specs, forward, sorted[k], sorted[..k])
  }

  /** What is not emitted waits for something not emitted. */
  ghost predicate RestStuck(specs: seq<Path>, forward: Graph, sorted: seq<Path>) {
    forall s {:trigger Free(specs, forward, s, sorted)} :: s in specs && s !in sorted ==> !Free(specs, forward, s, sorted)
  }

  lemma EmittedAreFree(specs: seq<Path>, forward: Graph, sorted: seq<Path>)
    requires ImportsFirst(specs, forward, sorted)
    ensures forall s :: s in sorted ==> Free(specs, forward, s, sorted)
  {
    forall k | 0 <= k < |sorted|
      ensures Free(specs, forward, sorted[k], sorted)
    {
      assert forall p :: p in sorted[..k] ==> p in sorted;
    }
  }

  lemma EmitStep(specs: seq<Path>, forward: Graph, sorted: seq<Path>, current: Path)
    requires ImportsFirst(specs, forward, sorted) && Free(specs, forward, current, sorted)
    ensures ImportsFirst(specs, forward, sorted + [current])
  {
    var next := sorted + [current];
    forall k | 0 <= k < |next|
      ensures Free(specs, forward, next[k], next[..k])
    {
      assert next[..k] == sorted[..k];
      assert sorted[..|sorted|] == sorted;
    }
  }

  /** The state of the sort between two rounds. */
  ghost predicate SortState(specs: seq<Path>, forward: Graph, sorted: seq<Path>, inDegree: map<Path, int>, queue: seq<Path>) {
    && NoDuplicates(sorted) && (forall s :: s in sorted ==> s in specs)
    && ImportsFirst(specs, forward, sorted)
    && Degrees(specs, forward, sorted, inDegree)
    && Queued(specs, forward, sorted, queue)
  }

  lemma FirstIsReady(specs: seq<Path>, forward: Graph, sorted: seq<Path>, queue: seq<Path>)
    requires queue != [] && Queued(specs, forward, sorted, queue)
    ensures Ready(specs, forward, sorted, queue[0]) && Queued(specs, forward, sorted, [queue[0]] + queue[1..])
  {
    assert [queue[0]] + queue[1..] == queue;
  }

  method EmitFirst(specs: seq<Path>, forward: Graph, sorted: seq<Path>, inDegree: map<Path, int>, queue: seq<Path>)
    returns (sorted': seq<Path>, inDegree': map<Path, int>, queue': seq<Path>)
    requires SimpleLists(forward) && queue != [] && SortState(specs, forward, sorted, inDegree, queue)
    ensures queue[0] in specs && queue[0] !in sorted && sorted' == sorted + [queue[0]]
    ensures SortState(specs, forward, sorted', inDegree', queue')
  {
    var current := queue[0];
    FirstIsReady(specs, forward, sorted, queue);
    EmittedAreFree(specs, forward, sorted);
    inDegree', queue' := TakeOff(specs, forward, sorted, current, inDegree, queue[1..]);
    EmitStep(specs, forward, sorted, current);
    sorted' := sorted + [current];
  }

  lemma NothingReadyIsStuck(specs: seq<Path>, forward: Graph, sorted: seq<Path>)
    requires Queued(specs, forward, sorted, [])
    ensures RestStuck(specs, forward, sorted)
  {
    forall s | s in specs && s !in sorted
      ensures !Free(specs, forward, s, sorted)
    {
      assert !Ready(specs, forward, sorted, s);
    }
  }

  /**
   * Sorts so that imported specs come before importing ones. Each spec is emitted at most once and
   * after all its imports in the list; what is not emitted waits for something not emitted.
   */
  method Sort(specs: seq<Path>, forward: Graph) returns (sorted: seq<Path>)
    requires SimpleLists(forward) && CopiesWait(specs, forward)
    ensures NoDuplicates(sorted) && forall s :: s in sorted ==> s in specs
    ensures ImportsFirst(specs, forward, sorted)
    ensures RestStuck(specs, forward, sorted)
  {
    var inDegree := InitialDegrees(specs, forward);
    var queue := InitialQueue(specs, forward, inDegree);
    sorted := [];
    ghost var rest := set s | s in specs;
    while queue != []
      invariant forall s :: s in rest <==> s in specs && s !in sorted
      invariant SortState(specs, forward, sorted, inDegree, queue)
      decreases rest
    {
      ghost var current := queue[0];
      sorted, inDegree, queue := EmitFirst(specs, forward, sorted, inDegree, queue);
      rest := rest - {current};
    }
    NothingReadyIsStuck(specs, forward, sorted);
  }

  /** The import graph inside the list. */
  function Inside(specs: seq<Path>, forward: Graph): Graph {
    map s | s in specs :: SelectIn(Get(forward, s), specs)
  }

  function SelectIn(imports: seq<Path>, specs: seq<Path>): seq<Path> {
    if imports == [] then []
    else (if imports[0] in specs then [imports[0]] else []) + SelectIn(imports[1..], specs)
  }

  lemma {:induction false} SelectInElements(imports: seq<Path>, specs: seq<Path>, p: Path)
    ensures p in SelectIn(imports, specs) <==> p in imports && p in specs
  {
    if imports != [] {
      SelectInElements(imports[1..], specs, p);
    }
  }

  lemma InsideEdges(specs: seq<Path>, forward: Graph)
    ensures forall a, b :: Edge(Inside(specs, forward), a, b) <==> a in specs && b in specs && b in Get(forward, a)
  {
    forall a, b
      ensures Edge(Inside(specs, forward), a, b) <==> a in specs && b in specs && b in Get(forward, a)
    {
      SelectInElements(Get(forward, a), specs, b);
    }
  }

  /** Along imports inside the list, positions in the sorted order go down. */
  lemma {:induction false} WalksDescend(specs: seq<Path>, forward: Graph, sorted: seq<Path>, p: seq<Path>, k: nat)
    returns (m: nat)
    requires ImportsFirst(specs, forward, sorted) && IsWalk(Inside(specs, forward), p)
    requires k < |sorted| && p[0] == sorted[k]
    ensures m < |sorted| && sorted[m] == p[|p| - 1] && m + |p| - 1 <= k
    decreases |p|
  {
    if |p| == 1 {
      m := k;
    } else {
      InsideEdges(specs, forward);
      assert Edge(Inside(specs, forward), p[0], p[1]);
      assert Free(specs, forward, sorted[k], sorted[..k]);
      var j :| 0 <= j < k && sorted[..k][j] == p[1];
      WalkSuffix(Inside(specs, forward), p, 1);
      m := WalksDescend(specs, forward, sorted, p[1..], j);
    }
  }

  lemma EmittedAvoidsCycles(specs: seq<Path>, forward: Graph, sorted: seq<Path>, s: Path)
    requires NoDuplicates(sorted) && ImportsFirst(specs, forward, sorted) && s in sorted
    ensures !RunsIntoCycle(Inside(specs, forward), s)
  {
    var g := Inside(specs, forward);
    if c :| Reaches(g, s, c) && ReachesPlus(g, c, c) {
      var k :| 0 <= k < |sorted| && sorted[k] == s;
      var p :| WalkBetween(g, p, s, c);
      var m := WalksDescend(specs, forward, sorted, p, k);
      var q :| WalkBetween(g, q, c, c) && |q| >= 2;
      var m' := WalksDescend(specs, forward, sorted, q, m);
      assert sorted[m'] == sorted[m];
    }
  }

  lemma NotEmittedRunsIntoCycle(specs: seq<Path>, forward: Graph, sorted: seq<Path>, s: Path)
    requires s in specs && s !in sorted && RestStuck(specs, forward, sorted)
    ensures RunsIntoCycle(Inside(specs, forward), s)
  {
    var stuck := set v | v in specs && v !in sorted;
    InsideEdges(specs, forward);
    forall v | v in stuck
      ensures HasNext(Inside(specs, forward), stuck, v)
    {
      assert !Free(specs, forward, v, sorted);
      var w :| w in Get(forward, v) && w in specs && w !in sorted;
      assert w in stuck;
    }
    EndlessRunsIntoCycle(Inside(specs, forward), stuck, s);
  }

  /** The sort emits exactly the specs of the list that do not run into an import cycle inside it. */
  lemma SortedIffAvoidsCycles(specs: seq<Path>, forward: Graph, sorted: seq<Path>, s: Path)
    requires NoDuplicates(sorted) && ImportsFirst(specs, forward, sorted)
    requires RestStuck(specs, forward, sorted)
    requires s in specs
    ensures s in sorted <==> !RunsIntoCycle(Inside(specs, forward), s)
  {
    if s in sorted {
      EmittedAvoidsCycles(specs, forward, sorted, s);
    } else {
      NotEmittedRunsIntoCycle(specs, forward, sorted, s);
    }
  }
}
