/** The forward and reverse import graphs below a root spec, and ancestor search. */
module SpecGraph {
  import opened SpecFiles
  import opened Graphs
  import opened ImportClosure

  /** The elements of `s` in order of first appearance. */
  function Dedup(s: seq<Path>): seq<Path> {
    if s == [] then []
    else
      var last := s[|s| - 1];
      var rest := Dedup(s[..|s| - 1]);
      if last in rest then rest else rest + [last]
  }

  lemma {:induction false} DedupSameElements(s: seq<Path>)
    ensures NoDuplicates(Dedup(s)) && forall p :: p in Dedup(s) <==> p in s
  {
    if s != [] {
      DedupSameElements(s[..|s| - 1]);
      assert s == s[..|s| - 1] + [s[|s| - 1]];
    }
  }

  ghost predicate Transposed(forward: Graph, reverse: Graph) {
    forall a, b :: Edge(reverse, b, a) <==> Edge(forward, a, b)
  }

  ghost predicate SimpleLists(g: Graph) {
    forall v :: v in g ==> NoDuplicates(g[v])
  }

  /** `forward` holds the edges of `g` that leave the specs in `explored`, and no others. */
  ghost predicate Explored(g: Graph, forward: Graph, explored: set<Path>) {
    forall v :: Get(forward, v) == if v in explored then Dedup(Get(g, v)) else []
  }

  /** Everything seen is reachable, and what visited specs import has been seen. */
  ghost predicate Frontier(disk: Disk, root: Path, visited: set<Path>, queue: seq<Path>) {
    && (forall p :: p in visited || p in queue ==> Reaches(ImportGraph(disk), root, p) && p in disk)
    && (forall v, w :: v in visited && Edge(ImportGraph(disk), v, w) ==> w in visited || w in queue)
  }

  lemma VisitedAgain(disk: Disk, root: Path, visited: set<Path>, queue: seq<Path>)
    requires queue != [] && queue[0] in visited && Frontier(disk, root, visited, queue)
    ensures Frontier(disk, root, visited, queue[1..])
  {
    assert forall p :: p in queue ==> p == queue[0] || p in queue[1..];
  }

  lemma FirstInQueue(disk: Disk, root: Path, visited: set<Path>, queue: seq<Path>)
    requires queue != [] && Frontier(disk, root, visited, queue)
    ensures queue[0] in disk && ImportsOf(disk, queue[0]) == Get(ImportGraph(disk), queue[0])
    ensures forall w :: w in ImportsOf(disk, queue[0]) ==> Reaches(ImportGraph(disk), root, w) && w in disk
  {
    assert queue[0] in queue;
    ImportsAreBelow(disk, root, queue[0]);
  }

  lemma Visited(disk: Disk, root: Path, visited: set<Path>, queue: seq<Path>, imports: seq<Path>, queue': seq<Path>)
    requires queue != [] && Frontier(disk, root, visited, queue)
    requires queue[0] in disk && imports == ImportsOf(disk, queue[0])
    requires forall p :: p in queue[1..] ==> p in queue'
    requires forall p :: p in queue' ==> p in queue[1..] || p in imports
    requires forall p :: p in imports ==> p in visited + {queue[0]} || p in queue'
    ensures Frontier(disk, root, visited + {queue[0]}, queue')
  {
    FirstInQueue(disk, root, visited, queue);
    assert forall p :: p in queue ==> p == queue[0] || p in queue[1..];
    assert forall p :: p in queue[1..] ==> p in queue;
  }

  /** Records one import in both graphs unless it is already there. */
  method AddEdge(forward: Graph, reverse: Graph, current: Path, imported: Path)
    returns (forward': Graph, reverse': Graph)
    requires Transposed(forward, reverse) && SimpleLists(forward) && SimpleLists(reverse)
    ensures Transposed(forward', reverse') && SimpleLists(forward') && SimpleLists(reverse')
    ensures forall v :: v != current ==> Get(forward', v) == Get(forward, v)
    ensures Get(forward', current) ==
      if imported in Get(forward, current) then Get(forward, current) else Get(forward, current) + [imported]
  {
    forward', reverse' := forward, reverse;
    if imported !in Get(forward, current) {
      forward' := forward[current := Get(forward, current) + [imported]];
    }
    if current !in Get(reverse, imported) {
      reverse' := reverse[imported := Get(reverse, imported) + [current]];
    }
    forall a, b
      ensures Edge(reverse', b, a) <==> Edge(forward', a, b)
    {
      assert Edge(reverse, b, a) <==> Edge(forward, a, b);
      assert Edge(reverse, imported, current) <==> Edge(forward, current, imported);
    }
  }

  method AddImports(ghost g: Graph, forward: Graph, reverse: Graph, current: Path, imports: seq<Path>)
    returns (forward': Graph, reverse': Graph)
    requires Transposed(forward, reverse) && SimpleLists(forward) && SimpleLists(reverse)
    requires Get(forward, current) == [] && imports == Get(g, current)
    ensures Transposed(forward', reverse') && SimpleLists(forward') && SimpleLists(reverse')
    ensures forall v :: Get(forward', v) == if v == current then Dedup(imports) else Get(forward, v)
  {
    forward', reverse' := forward, reverse;
    for i := 0 to |imports|
      invariant Transposed(forward', reverse') && SimpleLists(forward') && SimpleLists(reverse')
      invariant forall v :: Get(forward', v) == if v == current then Dedup(imports[..i]) else Get(forward, v)
    {
      assert imports[..i + 1][..i] == imports[..i];
      forward', reverse' := AddEdge(forward', reverse', current, imports[i]);
    }
    assert imports[..|imports|] == imports;
  }

  /**
   * The forward graph holds exactly the imports of the specs reachable from the root, each once, and
   * the reverse graph is its transpose.
   */
  method BuildSpecDependencyGraph(disk: Disk, root: Path) returns (forward: Graph, reverse: Graph)
    requires root in disk
    ensures Transposed(forward, reverse) && SimpleLists(forward) && SimpleLists(reverse)
    ensures Below(ImportGraph(disk), root, forward)
  {
    ghost var g := ImportGraph(disk);
    forward, reverse := map[], map[];
    var visited: set<Path> := {};
    var queue := [root];
    ReachesSelf(g, root);
    while queue != []
      invariant Transposed(forward, reverse) && SimpleLists(forward) && SimpleLists(reverse)
      invariant Explored(g, forward, visited)
      invariant visited <= disk.Keys && (root in visited || root in queue)
      invariant Frontier(disk, root, visited, queue)
      decreases disk.Keys - visited, |queue|
    {
      var current := queue[0];
      if current in visited {
        VisitedAgain(disk, root, visited, queue);
        queue := queue[1..];
      } else {
        FirstInQueue(disk, root, visited, queue);
        var imports := ParseDirectImports(disk, current);
        forward, reverse := AddImports(g, forward, reverse, current, imports);
        var queue' := EnqueueNew(queue[1..], imports, visited + {current});
        Visited(disk, root, visited, queue, imports, queue');
        visited, queue := visited + {current}, queue';
      }
    }
    ClosedHoldsReachable(g, visited, root);
  }

  ghost predicate Lists(s: seq<Path>, elements: set<Path>) {
    NoDuplicates(s) && forall p :: p in s <==> p in elements
  }

  /** Records and enqueues the parents not met before. */
  method VisitParents(parents: seq<Path>, visited: set<Path>, ancestors: seq<Path>, queue: seq<Path>)
    returns (visited': set<Path>, ancestors': seq<Path>, queue': seq<Path>)
    requires Lists(ancestors, visited)
    ensures Lists(ancestors', visited')
    ensures visited' == visited + set p | p in parents
    ensures forall p :: p in queue' <==> p in queue || p in visited' - visited
    ensures visited' == visited ==> queue' == queue
  {
    visited', ancestors', queue' := visited, ancestors, queue;
    for i := 0 to |parents|
      invariant Lists(ancestors', visited')
      invariant visited' == visited + set p | p in parents[..i]
      invariant forall p :: p in queue' <==> p in queue || p in visited' - visited
      invariant visited' == visited ==> queue' == queue
    {
      assert parents[..i + 1] == parents[..i] + [parents[i]];
      if parents[i] !in visited' {
        visited' := visited' + {parents[i]};
        ancestors' := ancestors' + [parents[i]];
        queue' := queue' + [parents[i]];
      }
    }
    assert parents[..|parents|] == parents;
  }

  lemma ParentsAreAncestors(reverse: Graph, spec: Path, current: Path)
    requires current == spec || ReachesPlus(reverse, spec, current)
    ensures forall p :: p in Get(reverse, current) ==> ReachesPlus(reverse, spec, p)
  {
    ReachesSelf(reverse, spec);
    forall p | p in Get(reverse, current)
      ensures ReachesPlus(reverse, spec, p)
    {
      ReachesThenEdge(reverse, spec, current, p);
    }
  }

  lemma AncestorsComplete(reverse: Graph, spec: Path, visited: set<Path>, done: set<Path>)
    requires done == visited + {spec}
    requires forall v, w :: v in done && Edge(reverse, v, w) ==> w in visited
    ensures forall a :: ReachesPlus(reverse, spec, a) ==> a in visited
  {
    forall a | ReachesPlus(reverse, spec, a)
      ensures a in visited
    {
      var p :| WalkBetween(reverse, p, spec, a) && |p| >= 2;
      ClosedHoldsWalk(reverse, done, p[..|p| - 1]);
      assert Edge(reverse, p[|p| - 2], p[|p| - 1]);
    }
  }

  /** All specs with a non-empty walk in `reverse` from `spec`, each once. */
  method FindAllAncestors(spec: Path, reverse: Graph) returns (ancestors: seq<Path>)
    ensures NoDuplicates(ancestors)
    ensures forall a :: a in ancestors <==> ReachesPlus(reverse, spec, a)
  {
    ancestors := [];
    var visited: set<Path> := {};
    var queue := [spec];
    ghost var done: set<Path> := {};
    ghost var all := set v, p | v in reverse && p in reverse[v] :: p;
    while queue != []
      invariant Lists(ancestors, visited)
      invariant visited <= all
      invariant forall a :: a in visited ==> ReachesPlus(reverse, spec, a)
      invariant forall q :: q in queue ==> q == spec || q in visited
      invariant forall a :: a == spec || a in visited ==> a in done || a in queue
      invariant done <= visited + {spec}
      invariant forall v, w :: v in done && Edge(reverse, v, w) ==> w in visited
      decreases all - visited, |queue|
    {
      var current := queue[0];
      ghost var queue0 := queue;
      queue := queue[1..];
      assert forall p :: p in queue0 <==> p == current || p in queue;
      ParentsAreAncestors(reverse, spec, current);
      visited, ancestors, queue := VisitParents(Get(reverse, current), visited, ancestors, queue);
      done := done + {current};
    }
    AncestorsComplete(reverse, spec, visited, done);
  }

  // ----- Ancestors in terms of the imports -----

  function Reversed(p: seq<Path>): (r: seq<Path>)
    ensures |r| == |p| && forall i :: 0 <= i < |p| ==> r[i] == p[|p| - 1 - i]
  {
    seq(|p|, i requires 0 <= i < |p| => p[|p| - 1 - i])
  }

  lemma TransposedWalk(g: Graph, h: Graph, p: seq<Path>, a: Path, b: Path)
    requires WalkBetween(g, p, a, b) && forall v, w :: Edge(g, v, w) ==> Edge(h, w, v)
    ensures WalkBetween(h, Reversed(p), b, a)
  {
    var r := Reversed(p);
    forall i | 0 <= i < |r| - 1
      ensures Edge(h, r[i], r[i + 1])
    {
      assert Edge(g, p[|p| - 2 - i], p[|p| - 2 - i + 1]);
    }
  }

  lemma TransposeReaches(forward: Graph, reverse: Graph, a: Path, b: Path)
    requires Transposed(forward, reverse)
    ensures ReachesPlus(forward, a, b) <==> ReachesPlus(reverse, b, a)
  {
    if ReachesPlus(forward, a, b) {
      var p :| WalkBetween(forward, p, a, b) && |p| >= 2;
      TransposedWalk(forward, reverse, p, a, b);
    }
    if ReachesPlus(reverse, b, a) {
      var p :| WalkBetween(reverse, p, b, a) && |p| >= 2;
      TransposedWalk(reverse, forward, p, b, a);
    }
  }

  /** `forward` is the part of `g` below `root`. */
  ghost predicate Below(g: Graph, root: Path, forward: Graph) {
    && (forall v :: Reaches(g, root, v) ==> Get(forward, v) == Dedup(Get(g, v)))
    && (forall v :: !Reaches(g, root, v) ==> Get(forward, v) == [])
  }

  lemma BelowEdges(g: Graph, root: Path, forward: Graph)
    requires Below(g, root, forward)
    ensures forall v, w :: Edge(forward, v, w) <==> Reaches(g, root, v) && Edge(g, v, w)
  {
    forall v, w
      ensures Edge(forward, v, w) <==> Reaches(g, root, v) && Edge(g, v, w)
    {
      DedupSameElements(Get(g, v));
    }
  }

  lemma BelowReaches(g: Graph, root: Path, forward: Graph, a: Path, b: Path)
    requires Below(g, root, forward)
    ensures ReachesPlus(forward, a, b) <==> Reaches(g, root, a) && ReachesPlus(g, a, b)
  {
    BelowEdges(g, root, forward);
    if ReachesPlus(forward, a, b) {
      var p :| WalkBetween(forward, p, a, b) && |p| >= 2;
      assert Edge(forward, p[0], p[1]);
      assert WalkBetween(g, p, a, b);
    }
    if Reaches(g, root, a) && ReachesPlus(g, a, b) {
      var p :| WalkBetween(g, p, a, b) && |p| >= 2;
      forall i | 0 <= i < |p| - 1
        ensures Edge(forward, p[i], p[i + 1])
      {
        WalkPrefix(g, p, i);
        ReachesTransitive(g, root, a, p[i]);
        assert Edge(g, p[i], p[i + 1]);
      }
      assert WalkBetween(forward, p, a, b);
    }
  }

  /**
   * The ancestor search over the reverse graph returns exactly the specs below the root that have a
   * non-empty import path to the target, import cycles included.
   */
  lemma AncestorsAreImporters(g: Graph, root: Path, forward: Graph, reverse: Graph, spec: Path, a: Path)
    requires Below(g, root, forward) && Transposed(forward, reverse)
    ensures ReachesPlus(reverse, spec, a) <==> Reaches(g, root, a) && ReachesPlus(g, a, spec)
  {
    TransposeReaches(forward, reverse, a, spec);
    BelowReaches(g, root, forward, a, spec);
  }
}
