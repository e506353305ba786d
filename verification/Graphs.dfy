/** Import graphs: walks, reachability and cycles. */
module Graphs {
  import opened SpecFiles

  type Graph = map<Path, seq<Path>>

  function Get(g: Graph, v: Path): seq<Path> {
    if v in g then g[v] else []
  }

  predicate Edge(g: Graph, a: Path, b: Path) {
    b in Get(g, a)
  }

  predicate IsWalk(g: Graph, p: seq<Path>) {
    p != [] && forall i :: 0 <= i < |p| - 1 ==> Edge(g, p[i], p[i + 1])
  }

  predicate WalkBetween(g: Graph, p: seq<Path>, a: Path, b: Path) {
    IsWalk(g, p) && p[0] == a && p[|p| - 1] == b
  }

  /** There is a walk of zero or more edges. */
  ghost predicate Reaches(g: Graph, a: Path, b: Path) {
    exists p :: WalkBetween(g, p, a, b)
  }

  /** There is a walk of one or more edges. */
  ghost predicate ReachesPlus(g: Graph, a: Path, b: Path) {
    exists p :: WalkBetween(g, p, a, b) && |p| >= 2
  }

  ghost predicate AcyclicFrom(g: Graph, root: Path) {
    forall v :: Reaches(g, root, v) ==> !ReachesPlus(g, v, v)
  }

  predicate NoDuplicates<T(==)>(s: seq<T>) {
    forall i, j :: 0 <= i < j < |s| ==> s[i] != s[j]
  }

  lemma ReachesSelf(g: Graph, a: Path)
    ensures Reaches(g, a, a)
  {
    assert WalkBetween(g, [a], a, a);
  }

  lemma WalkConcat(g: Graph, p: seq<Path>, q: seq<Path>, a: Path, b: Path, c: Path)
    requires WalkBetween(g, p, a, b) && WalkBetween(g, q, b, c)
    ensures WalkBetween(g, p + q[1..], a, c)
  {
    var r := p + q[1..];
    forall i | 0 <= i < |r| - 1
      ensures Edge(g, r[i], r[i + 1])
    {
      if i >= |p| - 1 {
        assert r[i] == q[i - |p| + 1] && r[i + 1] == q[i - |p| + 2];
      }
    }
  }

  lemma ReachesTransitive(g: Graph, a: Path, b: Path, c: Path)
    requires Reaches(g, a, b) && Reaches(g, b, c)
    ensures Reaches(g, a, c)
  {
    var p :| WalkBetween(g, p, a, b);
    var q :| WalkBetween(g, q, b, c);
    WalkConcat(g, p, q, a, b, c);
  }

  lemma EdgeReaches(g: Graph, a: Path, b: Path)
    requires Edge(g, a, b)
    ensures ReachesPlus(g, a, b) && Reaches(g, a, b)
  {
    assert WalkBetween(g, [a, b], a, b);
  }

  lemma PlusIsReaches(g: Graph, a: Path, b: Path)
    requires ReachesPlus(g, a, b)
    ensures Reaches(g, a, b)
  {
  }

  lemma ReachesThenEdge(g: Graph, a: Path, b: Path, c: Path)
    requires Reaches(g, a, b) && Edge(g, b, c)
    ensures ReachesPlus(g, a, c) && Reaches(g, a, c)
  {
    var p :| WalkBetween(g, p, a, b);
    WalkConcat(g, p, [b, c], a, b, c);
    assert WalkBetween(g, p + [b, c][1..], a, c);
  }

  lemma PlusThenReaches(g: Graph, a: Path, b: Path, c: Path)
    requires ReachesPlus(g, a, b) && Reaches(g, b, c)
    ensures ReachesPlus(g, a, c)
  {
    var p :| WalkBetween(g, p, a, b) && |p| >= 2;
    var q :| WalkBetween(g, q, b, c);
    WalkConcat(g, p, q, a, b, c);
    assert WalkBetween(g, p + q[1..], a, c);
  }

  lemma ReachesThenPlus(g: Graph, a: Path, b: Path, c: Path)
    requires Reaches(g, a, b) && ReachesPlus(g, b, c)
    ensures ReachesPlus(g, a, c)
  {
    var p :| WalkBetween(g, p, a, b);
    var q :| WalkBetween(g, q, b, c) && |q| >= 2;
    WalkConcat(g, p, q, a, b, c);
    assert WalkBetween(g, p + q[1..], a, c);
  }

  /** A walk that is not empty starts with an edge. */
  lemma PlusFirstEdge(g: Graph, a: Path, c: Path) returns (b: Path)
    requires ReachesPlus(g, a, c)
    ensures Edge(g, a, b) && Reaches(g, b, c)
  {
    var p :| WalkBetween(g, p, a, c) && |p| >= 2;
    b := p[1];
    assert Edge(g, p[0], p[1]);
    WalkSuffix(g, p, 1);
  }

  lemma ReachesCases(g: Graph, a: Path, b: Path)
    requires Reaches(g, a, b)
    ensures a == b || ReachesPlus(g, a, b)
  {
    var p :| WalkBetween(g, p, a, b);
  }

  lemma WalkSuffix(g: Graph, p: seq<Path>, k: nat)
    requires IsWalk(g, p) && k < |p|
    ensures WalkBetween(g, p[k..], p[k], p[|p| - 1])
    ensures Reaches(g, p[k], p[|p| - 1])
  {
    var q := p[k..];
    forall i | 0 <= i < |q| - 1
      ensures Edge(g, q[i], q[i + 1])
    {
      assert Edge(g, p[k + i], p[k + i + 1]);
    }
    assert WalkBetween(g, q, p[k], p[|p| - 1]);
  }

  lemma WalkPrefix(g: Graph, p: seq<Path>, k: nat)
    requires IsWalk(g, p) && k < |p|
    ensures WalkBetween(g, p[..k + 1], p[0], p[k])
    ensures Reaches(g, p[0], p[k])
  {
    assert WalkBetween(g, p[..k + 1], p[0], p[k]);
  }

  lemma WalkPrepend(g: Graph, a: Path, q: seq<Path>)
    requires IsWalk(g, q) && Edge(g, a, q[0])
    ensures IsWalk(g, [a] + q)
  {
    var p := [a] + q;
    forall i | 0 <= i < |p| - 1
      ensures Edge(g, p[i], p[i + 1])
    {
      if i > 0 {
        assert Edge(g, q[i - 1], q[i - 1 + 1]);
      }
    }
  }

  lemma WalkInfix(g: Graph, p: seq<Path>, i: nat, j: nat)
    requires IsWalk(g, p) && i < j < |p|
    ensures ReachesPlus(g, p[i], p[j])
  {
    var q := p[i..j + 1];
    forall k | 0 <= k < |q| - 1
      ensures Edge(g, q[k], q[k + 1])
    {
      assert Edge(g, p[i + k], p[i + k + 1]);
    }
    assert WalkBetween(g, q, p[i], p[j]);
  }

  /** A set that holds the start of a walk and is closed under edges holds the end. */
  lemma {:induction false} ClosedHoldsWalk(g: Graph, s: set<Path>, p: seq<Path>)
    requires IsWalk(g, p) && p[0] in s
    requires forall v, w :: v in s && Edge(g, v, w) ==> w in s
    ensures p[|p| - 1] in s
  {
    if |p| > 1 {
      ClosedHoldsWalk(g, s, p[..|p| - 1]);
      assert Edge(g, p[|p| - 2], p[|p| - 1]);
    }
  }

  lemma ClosedHoldsReachable(g: Graph, s: set<Path>, a: Path)
    requires a in s
    requires forall v, w :: v in s && Edge(g, v, w) ==> w in s
    ensures forall b :: Reaches(g, a, b) ==> b in s
  {
    forall b | Reaches(g, a, b)
      ensures b in s
    {
      var p :| WalkBetween(g, p, a, b);
      ClosedHoldsWalk(g, s, p);
    }
  }

  // ----- Cycles -----

  ghost predicate RunsIntoCycle(g: Graph, s: Path) {
    exists c :: Reaches(g, s, c) && ReachesPlus(g, c, c)
  }

  ghost predicate AllIn(p: seq<Path>, s: set<Path>) {
    forall i :: 0 <= i < |p| ==> p[i] in s
  }

  ghost predicate HasNext(g: Graph, s: set<Path>, v: Path) {
    exists w :: w in s && Edge(g, v, w)
  }

  ghost predicate Continues(g: Graph, s: set<Path>) {
    forall v {:trigger HasNext(g, s, v)} :: v in s ==> HasNext(g, s, v)
  }

  lemma {:induction false} LongWalk(g: Graph, s: set<Path>, v: Path, n: nat) returns (p: seq<Path>)
    requires v in s && Continues(g, s)
    ensures |p| == n + 1 && p[0] == v && IsWalk(g, p) && AllIn(p, s)
    decreases n
  {
    if n == 0 {
      p := [v];
    } else {
      assert HasNext(g, s, v);
      var w :| w in s && Edge(g, v, w);
      var q := LongWalk(g, s, w, n - 1);
      WalkPrepend(g, v, q);
      p := [v] + q;
    }
  }

  lemma {:induction false} Pigeonhole(p: seq<Path>, s: set<Path>) returns (i: nat, j: nat)
    requires |p| > |s| && AllIn(p, s)
    ensures i < j < |p| && p[i] == p[j]
    decreases |p|
  {
    var last := |p| - 1;
    if k :| 0 <= k < last && p[k] == p[last] {
      i, j := k, last;
    } else {
      i, j := Pigeonhole(p[..last], s - {p[last]});
    }
  }

  /** Where every member of a finite set has an edge inside the set, every member runs into a cycle. */
  lemma EndlessRunsIntoCycle(g: Graph, s: set<Path>, v: Path)
    requires v in s && Continues(g, s)
    ensures RunsIntoCycle(g, v)
  {
    var p := LongWalk(g, s, v, |s|);
    var i, j := Pigeonhole(p, s);
    WalkPrefix(g, p, i);
    WalkInfix(g, p, i, j);
  }
}
