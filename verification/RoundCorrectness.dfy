/**
 * The result of one repair round: below the new main spec there is no old version of an updated
 * spec, every import path to an updated spec has a counterpart between copies, and the rest of the
 * disk is as it was.
 */
module RoundCorrectness {
  import opened SpecFiles
  import opened Graphs
  import opened SpecGraph
  import opened TopologicalSort
  import opened RecursiveUpdate

  // ----- The import graph of the new disk -----

  /** `item'` imports on the new disk what `item` imports on the old one, up to copies. */
  ghost predicate Corresponds(disk: Disk, disk': Disk, dir: seq<string>, item: Item, item': Item,
                              names: Naming, sorted: seq<Path>)
  {
    && (item.Import? <==> item'.Import?)
    && (item.Import? ==> (Target(dir, item') in disk' <==> Target(dir, item) in disk))
    && (item.Import? && Target(dir, item) in disk ==> Target(dir, item') == NewOrSame(names, sorted, Target(dir, item)))
  }

  lemma {:induction false} ResolvedCorresponds(disk: Disk, disk': Disk, dir: seq<string>, file: SpecFile, file': SpecFile,
                                               names: Naming, sorted: seq<Path>)
    requires |file'| == |file|
    requires forall i :: 0 <= i < |file| ==> Corresponds(disk, disk', dir, file[i], file'[i], names, sorted)
    ensures Resolved(disk', dir, file') == NewOrSameAll(names, sorted, Resolved(disk, dir, file))
    decreases |file|
  {
    if file != [] {
      var last := |file| - 1;
      forall i | 0 <= i < last
        ensures Corresponds(disk, disk', dir, file[..last][i], file'[..last][i], names, sorted)
      {
        assert Corresponds(disk, disk', dir, file[i], file'[i], names, sorted);
      }
      ResolvedCorresponds(disk, disk', dir, file[..last], file'[..last], names, sorted);
      assert Corresponds(disk, disk', dir, file[last], file'[last], names, sorted);
    }
  }

  lemma ResolvedCopy(disk: Disk, fixes: map<Path, Fix>, names: Naming, sorted: seq<Path>, disk': Disk,
                     p: Path, k: nat)
    requires RoundDone(disk, fixes, names, sorted, disk') && p in disk && k <= |sorted|
    requires forall t :: t in ImportsOf(disk, p) && t in sorted ==> t in sorted[..k]
    ensures Resolved(disk', p.dir, Rewrite(disk[p], UpdatesOf(names, sorted[..k]))) == NewOrSameAll(names, sorted, ImportsOf(disk, p))
  {
    var file, done := disk[p], sorted[..k];
    var file' := Rewrite(file, UpdatesOf(names, done));
    SortedIsFresh(disk, names, done);
    RewriteLength(file, names, done);
    forall i | 0 <= i < |file|
      ensures Corresponds(disk, disk', p.dir, file[i], file'[i], names, sorted)
    {
      RewriteAt(file, names, done, i);
      if file[i].Import? {
        if Target(p.dir, file[i]) in sorted {
          ResolvedComplete(disk, p.dir, file, i);
        }
        RedirectedImport(disk, fixes, names, sorted, disk', p, i, k);
      }
    }
    ResolvedCorresponds(disk, disk', p.dir, file, file', names, sorted);
  }

  lemma {:induction false} RewriteLength(file: SpecFile, names: Naming, done: seq<Path>)
    ensures |Rewrite(file, UpdatesOf(names, done))| == |file|
  {
    if done != [] {
      RewriteLength(file, names, done[..|done| - 1]);
      assert UpdatesOf(names, done)[..|done| - 1] == UpdatesOf(names, done[..|done| - 1]);
    }
  }

  lemma ResolvedOld(disk: Disk, fixes: map<Path, Fix>, names: Naming, sorted: seq<Path>, disk': Disk, p: Path)
    requires RoundDone(disk, fixes, names, sorted, disk') && p in disk
    ensures Resolved(disk', p.dir, disk[p]) == ImportsOf(disk, p)
  {
    forall i | 0 <= i < |disk[p]|
      ensures Corresponds(disk, disk', p.dir, disk[p][i], disk[p][i], names, [])
    {
      if disk[p][i].Import? {
        OldImportsStay(disk, fixes, names, sorted, disk', p, i);
      }
    }
    ResolvedCorresponds(disk, disk', p.dir, disk[p], disk[p], names, []);
    assert NewOrSameAll(names, [], ImportsOf(disk, p)) == ImportsOf(disk, p);
  }

  /** The graph after the round, in terms of the graph before it. */
  ghost predicate Lifted(g: Graph, g': Graph, names: Naming, sorted: seq<Path>, patched: set<Path>) {
    && (forall p :: p in sorted && p !in patched ==> Get(g', NewPath(names, p)) == NewOrSameAll(names, sorted, Get(g, p)))
    && (forall p, q :: p in sorted && p in patched && Edge(g', NewPath(names, p), q) ==> Edge(g, p, q))
    && (forall p :: p in g ==> Get(g', p) == Get(g, p))
  }

  /** A fix comments lines out: it may remove imports but not add any. */
  ghost predicate OnlyRemovesImports(before: SpecFile, after: SpecFile) {
    forall item :: item in after && item.Import? ==> item in before
  }

  lemma FixedImports(disk: Disk, fixes: map<Path, Fix>, names: Naming, sorted: seq<Path>, disk': Disk,
                     p: Path, q: Path)
    requires RoundDone(disk, fixes, names, sorted, disk') && p in disk && NewPath(names, p) in disk'
    requires OnlyRemovesImports(disk[p], disk'[NewPath(names, p)])
    requires q in ImportsOf(disk', NewPath(names, p))
    ensures q in ImportsOf(disk, p)
  {
    var after := disk'[NewPath(names, p)];
    ResolvedOnDisk(disk', p.dir, after, q);
    var i :| 0 <= i < |after| && after[i].Import? && Target(p.dir, after[i]) == q;
    assert after[i] in after;
    var j :| 0 <= j < |disk[p]| && disk[p][j] == after[i];
    OldImportsStay(disk, fixes, names, sorted, disk', p, j);
    ResolvedComplete(disk, p.dir, disk[p], j);
  }

  /** Whatever a listed spec imports from the list comes before it. */
  ghost predicate ImportsBefore(g: Graph, sorted: seq<Path>) {
    forall k, t :: 0 <= k < |sorted| && Edge(g, sorted[k], t) && t in sorted ==> t in sorted[..k]
  }

  lemma CopyImports(disk: Disk, fixes: map<Path, Fix>, names: Naming, sorted: seq<Path>, disk': Disk, k: nat)
    requires RoundDone(disk, fixes, names, sorted, disk') && k < |sorted| && sorted[k] !in fixes
    requires ImportsBefore(ImportGraph(disk), sorted)
    ensures Get(ImportGraph(disk'), NewPath(names, sorted[k])) == NewOrSameAll(names, sorted, Get(ImportGraph(disk), sorted[k]))
  {
    var p := sorted[k];
    assert p in disk;
    assert CopyMade(disk, fixes, names, sorted, disk', k);
    forall t | t in ImportsOf(disk, p) && t in sorted
      ensures t in sorted[..k]
    {
      assert Edge(ImportGraph(disk), p, t);
    }
    ResolvedCopy(disk, fixes, names, sorted, disk', p, k);
  }

  lemma GraphIsLifted(disk: Disk, fixes: map<Path, Fix>, names: Naming, sorted: seq<Path>, disk': Disk)
    requires RoundDone(disk, fixes, names, sorted, disk') && ImportsBefore(ImportGraph(disk), sorted)
    requires forall p :: p in sorted && p in fixes ==> OnlyRemovesImports(disk[p], fixes[p](disk[p]))
    ensures Lifted(ImportGraph(disk), ImportGraph(disk'), names, sorted, fixes.Keys)
  {
    var g, g' := ImportGraph(disk), ImportGraph(disk');
    forall p | p in sorted && p !in fixes
      ensures Get(g', NewPath(names, p)) == NewOrSameAll(names, sorted, Get(g, p))
    {
      var k :| 0 <= k < |sorted| && sorted[k] == p;
      CopyImports(disk, fixes, names, sorted, disk', k);
    }
    forall p, q | p in sorted && p in fixes && Edge(g', NewPath(names, p), q)
      ensures Edge(g, p, q)
    {
      var k :| 0 <= k < |sorted| && sorted[k] == p;
      assert CopyMade(disk, fixes, names, sorted, disk', k);
      FixedImports(disk, fixes, names, sorted, disk', p, q);
    }
    forall p | p in g
      ensures Get(g', p) == Get(g, p)
    {
      ResolvedOld(disk, fixes, names, sorted, disk', p);
    }
  }

  // ----- The round's preconditions on the graph -----

  /** Acyclic imports, fixes below the main spec, and no fix importing another, directly or not. */
  ghost predicate PlanOk(g: Graph, main: Path, fixed: seq<Path>) {
    && AcyclicFrom(g, main)
    && (forall f :: f in fixed ==> Reaches(g, main, f))
    && (forall f, f' :: f in fixed && f' in fixed ==> !ReachesPlus(g, f, f'))
  }

  lemma AffectedIsBelow(g: Graph, main: Path, fixed: seq<Path>, p: Path)
    requires PlanOk(g, main, fixed) && Affected(g, main, fixed, p)
    ensures Reaches(g, main, p)
  {
    ReachesSelf(g, main);
  }

  lemma MainIsNotImported(g: Graph, main: Path, fixed: seq<Path>, p: Path)
    requires PlanOk(g, main, fixed) && Reaches(g, main, p)
    ensures !ReachesPlus(g, p, main)
  {
    if ReachesPlus(g, p, main) {
      ReachesThenPlus(g, main, p, main);
      ReachesSelf(g, main);
    }
  }

  /** Whatever has a non-empty path to an affected spec is affected and is not a fix. */
  lemma ImportersOfAffected(g: Graph, main: Path, fixed: seq<Path>, p: Path, s: Path)
    requires PlanOk(g, main, fixed) && Reaches(g, main, p) && ReachesPlus(g, p, s) && Affected(g, main, fixed, s)
    ensures Affected(g, main, fixed, p) && p !in fixed
  {
    MainIsNotImported(g, main, fixed, p);
    if s !in fixed {
      var f :| f in fixed && ReachesPlus(g, s, f);
      PlusIsReaches(g, s, f);
      PlusThenReaches(g, p, s, f);
    }
  }

  /** With acyclic imports nothing in the list runs into a cycle, so everything is copied. */
  lemma EverythingIsSorted(g: Graph, main: Path, fixed: seq<Path>, specs: seq<Path>, forward: Graph, p: Path)
    requires PlanOk(g, main, fixed) && Below(g, main, forward) && p in specs && Affected(g, main, fixed, p)
    ensures !RunsIntoCycle(Inside(specs, forward), p)
  {
    var inner := Inside(specs, forward);
    InsideEdges(specs, forward);
    BelowEdges(g, main, forward);
    AffectedIsBelow(g, main, fixed, p);
    if c :| Reaches(inner, p, c) && ReachesPlus(inner, c, c) {
      var w :| WalkBetween(inner, w, p, c);
      assert WalkBetween(g, w, p, c);
      var v :| WalkBetween(inner, v, c, c) && |v| >= 2;
      assert WalkBetween(g, v, c, c);
      ReachesTransitive(g, main, p, c);
    }
  }

  // ----- The result -----

  /** Whatever is patched is one of the fixed specs. */
  ghost predicate OnlyFixes(sorted: seq<Path>, patched: set<Path>, fixed: seq<Path>) {
    forall p :: p in sorted && p in patched ==> p in fixed
  }

  /** What may be met below the new main spec. */
  ghost predicate Clean(g: Graph, main: Path, fixed: seq<Path>, names: Naming, sorted: seq<Path>, q: Path) {
    IsNew(names, sorted, q) || (Reaches(g, main, q) && !Affected(g, main, fixed, q))
  }

  lemma CopyCleanStep(g: Graph, g': Graph, main: Path, fixed: seq<Path>, patched: set<Path>, names: Naming, sorted: seq<Path>,
                      p: Path, w: Path)
    requires PlanOk(g, main, fixed) && Lifted(g, g', names, sorted, patched) && OnlyFixes(sorted, patched, fixed)
    requires forall p :: p in sorted <==> Affected(g, main, fixed, p)
    requires p in sorted && p !in patched && Edge(g', NewPath(names, p), w)
    ensures Clean(g, main, fixed, names, sorted, w)
  {
    AffectedIsBelow(g, main, fixed, p);
    var i :| 0 <= i < |Get(g, p)| && NewOrSame(names, sorted, Get(g, p)[i]) == w;
    var u := Get(g, p)[i];
    assert Edge(g, p, u);
    ReachesThenEdge(g, main, p, u);
    if u in sorted {
      var j :| 0 <= j < |sorted| && sorted[j] == u;
      assert w == NewPath(names, sorted[j]);
    }
  }

  lemma CleanStep(g: Graph, g': Graph, main: Path, fixed: seq<Path>, patched: set<Path>, names: Naming, sorted: seq<Path>,
                  v: Path, w: Path)
    requires PlanOk(g, main, fixed) && Lifted(g, g', names, sorted, patched) && OnlyFixes(sorted, patched, fixed)
    requires forall p :: p in sorted <==> Affected(g, main, fixed, p)
    requires Clean(g, main, fixed, names, sorted, v) && Edge(g', v, w)
    requires IsNew(names, sorted, v) || v in g
    ensures Clean(g, main, fixed, names, sorted, w)
  {
    if IsNew(names, sorted, v) {
      var k :| 0 <= k < |sorted| && v == NewPath(names, sorted[k]);
      var p := sorted[k];
      assert p in sorted;
      if p in patched {
        AffectedIsBelow(g, main, fixed, p);
        CleanImport(g, main, fixed, p, w);
      } else {
        CopyCleanStep(g, g', main, fixed, patched, names, sorted, p, w);
      }
    } else {
      CleanImport(g, main, fixed, v, w);
    }
  }

  lemma CleanImport(g: Graph, main: Path, fixed: seq<Path>, v: Path, w: Path)
    requires PlanOk(g, main, fixed) && Reaches(g, main, v) && Edge(g, v, w)
    requires v in fixed || !Affected(g, main, fixed, v)
    ensures Reaches(g, main, w) && !Affected(g, main, fixed, w)
  {
    ReachesThenEdge(g, main, v, w);
    EdgeReaches(g, v, w);
    if Affected(g, main, fixed, w) {
      ImportersOfAffected(g, main, fixed, v, w);
    }
  }

  lemma {:induction false} CleanWalk(g: Graph, g': Graph, main: Path, fixed: seq<Path>, patched: set<Path>, names: Naming,
                                     sorted: seq<Path>, p: seq<Path>)
    requires PlanOk(g, main, fixed) && Lifted(g, g', names, sorted, patched) && OnlyFixes(sorted, patched, fixed)
    requires forall p :: p in sorted <==> Affected(g, main, fixed, p)
    requires forall q :: Reaches(g, main, q) ==> q in g
    requires IsWalk(g', p) && Clean(g, main, fixed, names, sorted, p[0])
    ensures Clean(g, main, fixed, names, sorted, p[|p| - 1])
    decreases |p|
  {
    if |p| > 1 {
      CleanWalk(g, g', main, fixed, patched, names, sorted, p[..|p| - 1]);
      assert Edge(g', p[|p| - 2], p[|p| - 2 + 1]);
      CleanStep(g, g', main, fixed, patched, names, sorted, p[|p| - 2], p[|p| - 1]);
    }
  }

  /** The import closure of the new main spec contains no old version of an updated spec. */
  lemma NewClosureIsClean(g: Graph, g': Graph, main: Path, fixed: seq<Path>, patched: set<Path>, names: Naming, sorted: seq<Path>, q: Path)
    requires PlanOk(g, main, fixed) && Lifted(g, g', names, sorted, patched) && OnlyFixes(sorted, patched, fixed)
    requires forall p :: p in sorted <==> Affected(g, main, fixed, p)
    requires forall q :: Reaches(g, main, q) ==> q in g
    requires forall p :: p in sorted ==> NewPath(names, p) !in g
    requires Reaches(g', NewPath(names, main), q)
    ensures !Affected(g, main, fixed, q)
  {
    var p :| WalkBetween(g', p, NewPath(names, main), q);
    assert main in sorted;
    var k :| 0 <= k < |sorted| && sorted[k] == main;
    assert NewPath(names, sorted[k]) == p[0];
    CleanWalk(g, g', main, fixed, patched, names, sorted, p);
    if Affected(g, main, fixed, q) {
      AffectedIsBelow(g, main, fixed, q);
    }
  }

  function Mirror(names: Naming, p: seq<Path>): seq<Path> {
    seq(|p|, i requires 0 <= i < |p| => NewPath(names, p[i]))
  }

  /** Every old import path from the main spec to an updated spec is also a path between the copies. */
  lemma PathsAreMirrored(g: Graph, g': Graph, main: Path, fixed: seq<Path>, patched: set<Path>, names: Naming, sorted: seq<Path>,
                         p: seq<Path>, s: Path)
    requires PlanOk(g, main, fixed) && Lifted(g, g', names, sorted, patched) && OnlyFixes(sorted, patched, fixed)
    requires forall p :: p in sorted <==> Affected(g, main, fixed, p)
    requires WalkBetween(g, p, main, s) && s in sorted
    ensures WalkBetween(g', Mirror(names, p), NewPath(names, main), NewPath(names, s))
  {
    var m := Mirror(names, p);
    forall i | 0 <= i < |m| - 1
      ensures Edge(g', m[i], m[i + 1])
    {
      OnWayToAffected(g, main, fixed, p, s, i);
      OnWayToAffected(g, main, fixed, p, s, i + 1);
      assert Edge(g, p[i], p[i + 1]);
      var j :| 0 <= j < |Get(g, p[i])| && Get(g, p[i])[j] == p[i + 1];
      assert NewOrSameAll(names, sorted, Get(g, p[i]))[j] == NewPath(names, p[i + 1]);
    }
  }

  lemma OnWayToAffected(g: Graph, main: Path, fixed: seq<Path>, p: seq<Path>, s: Path, i: nat)
    requires PlanOk(g, main, fixed) && WalkBetween(g, p, main, s) && Affected(g, main, fixed, s) && i < |p|
    ensures Affected(g, main, fixed, p[i]) && (i < |p| - 1 ==> p[i] !in fixed)
  {
    if i < |p| - 1 {
      WalkPrefix(g, p, i);
      WalkInfix(g, p, i, |p| - 1);
      ImportersOfAffected(g, main, fixed, p[i], s);
    }
  }

  // ----- The round as a whole -----

  /** Below the main spec different files have different base names, and a base name is its own base name. */
  ghost predicate BasesOk(g: Graph, main: Path, reverseRename: string -> string) {
    && (forall p, q :: Reaches(g, main, p) && Reaches(g, main, q) && BaseIn(reverseRename, p) == BaseIn(reverseRename, q) ==> p == q)
    && (forall p :: Reaches(g, main, p) ==> reverseRename(BaseIn(reverseRename, p)) == BaseIn(reverseRename, p))
  }

  ghost predicate HasName(fixed: seq<Path>, base: string) {
    exists f :: f in fixed && f.name == base + ".spec"
  }

  /** What a round assumes: fresh names, names that identify files, distinct base names, and a good plan. */
  ghost predicate RoundOk(disk: Disk, main: Path, fixed: seq<Path>, fixes: map<string, Fix>,
                          rename: string -> string, reverseRename: string -> string)
  {
    && FreshNames(disk, RoundNaming(rename, reverseRename)) && UniqueNames(disk)
    && (forall b, c :: NewName(rename, b) == NewName(rename, c) ==> b == c)
    && BasesOk(ImportGraph(disk), main, reverseRename) && PlanOk(ImportGraph(disk), main, fixed)
    && (forall p {:trigger HasName(fixed, BaseIn(reverseRename, p))} ::
          Reaches(ImportGraph(disk), main, p) && BaseIn(reverseRename, p) in fixes ==> HasName(fixed, BaseIn(reverseRename, p)))
    && (forall p :: p in disk && BaseIn(reverseRename, p) in fixes ==>
          OnlyRemovesImports(disk[p], fixes[BaseIn(reverseRename, p)](disk[p])))
  }

  ghost predicate NamedBy(bases: seq<string>, p: Path) {
    exists b :: b in bases && p.name == b + ".spec"
  }

  /** The specs found for the given base names. */
  ghost predicate FoundFor(disk: Disk, bases: seq<string>, fixed: seq<Path>) {
    NoDuplicates(fixed) && forall p :: p in fixed <==> p in disk && NamedBy(bases, p)
  }

  method FindSpecFile(disk: Disk, name: string) returns (found: bool, spec: Path)
    ensures found <==> exists p :: p in disk && p.name == name
    ensures found ==> spec in disk && spec.name == name
  {
    if p :| p in disk && p.name == name {
      found, spec := true, p;
    } else {
      found, spec := false, Path([], "");
    }
  }

  method FindFixed(disk: Disk, bases: seq<string>) returns (fixed: seq<Path>)
    requires UniqueNames(disk) && NoDuplicates(bases)
    ensures FoundFor(disk, bases, fixed)
  {
    fixed := [];
    for i := 0 to |bases|
      invariant FoundFor(disk, bases[..i], fixed)
    {
      var found, spec := FindSpecFile(disk, bases[i] + ".spec");
      FoundStep(disk, bases, i, fixed, found, spec);
      if found {
        fixed := fixed + [spec];
      }
    }
    assert bases[..|bases|] == bases;
  }

  lemma NamedStep(bases: seq<string>, i: nat, p: Path)
    requires NoDuplicates(bases) && i < |bases|
    ensures NamedBy(bases[..i + 1], p) <==> NamedBy(bases[..i], p) || p.name == bases[i] + ".spec"
    ensures NamedBy(bases[..i], p) ==> p.name != bases[i] + ".spec"
  {
    assert bases[..i + 1] == bases[..i] + [bases[i]];
    assert forall b :: b in bases[..i + 1] <==> b in bases[..i] || b == bases[i];
    if NamedBy(bases[..i], p) {
      var b :| b in bases[..i] && p.name == b + ".spec";
      assert p.name[..|p.name| - 5] == b;
      assert (bases[i] + ".spec")[..|bases[i] + ".spec"| - 5] == bases[i];
    }
  }

  lemma FoundStep(disk: Disk, bases: seq<string>, i: nat, fixed: seq<Path>, found: bool, spec: Path)
    requires UniqueNames(disk) && NoDuplicates(bases) && i < |bases| && FoundFor(disk, bases[..i], fixed)
    requires found <==> exists p :: p in disk && p.name == bases[i] + ".spec"
    requires found ==> spec in disk && spec.name == bases[i] + ".spec"
    ensures FoundFor(disk, bases[..i + 1], if found then fixed + [spec] else fixed)
  {
    forall p | p in disk
      ensures NamedBy(bases[..i + 1], p) <==> NamedBy(bases[..i], p) || (found && p == spec)
      ensures NamedBy(bases[..i], p) && found ==> p != spec
    {
      NamedStep(bases, i, p);
    }
  }

  /**
   * One round: the fixes are those named `base.spec` for the given base names, and everything
   * affected is copied.
   */
  method PerformRecursiveUpdate(updater: SpecUpdater, bases: seq<string>, fixes: map<string, Fix>, main: Path,
                                rename: string -> string, reverseRename: string -> string)
    returns (newMain: Path, ghost fixed: seq<Path>, ghost sorted: seq<Path>)
    requires main in updater.disk && BasesRecorded(updater.disk, updater.specBaseNames, reverseRename)
    requires NoDuplicates(bases) && forall b :: b in bases <==> b in fixes
    requires UniqueNames(updater.disk)
    requires forall fixed :: FoundFor(updater.disk, bases, fixed) ==>
      RoundOk(updater.disk, main, fixed, fixes, rename, reverseRename)
    modifies updater
    ensures FoundFor(old(updater.disk), bases, fixed)
    ensures newMain == NewPath(RoundNaming(rename, reverseRename), main)
    ensures IsRound(old(updater.disk), main, fixed, fixes, rename, reverseRename, sorted, updater.disk)
    ensures RoundCorrect(ImportGraph(old(updater.disk)), ImportGraph(updater.disk), main, fixed,
                         FixesByBase(old(updater.disk), fixes, reverseRename).Keys, RoundNaming(rename, reverseRename), sorted)
    ensures updater.specBaseNames == RecordedAll(old(updater.specBaseNames), rename, reverseRename, sorted)
  {
    var disk := updater.disk;
    var found := FindFixed(disk, bases);
    var specs, forward, order := SpecsToUpdate(disk, main, found);
    fixed, sorted := found, order;
    SortedIsAffected(disk, main, fixed, specs, forward, sorted);
    SortedHasOneNameEach(disk, main, fixed, fixes, rename, reverseRename, sorted);
    updater.CopySorted(order, fixes, rename, reverseRename);
    newMain := Path(main.dir, NewName(rename, BaseIn(reverseRename, main)));
    RoundIsSorted(disk, main, fixed, fixes, rename, reverseRename, specs, forward, sorted, updater.disk);
    RoundIsCorrect(disk, main, fixed, fixes, rename, reverseRename, sorted, updater.disk);
  }

  /** The affected specs are copied one by one, each after its affected imports. */
  ghost predicate IsRound(disk: Disk, main: Path, fixed: seq<Path>, fixes: map<string, Fix>,
                          rename: string -> string, reverseRename: string -> string, sorted: seq<Path>, disk': Disk)
  {
    && NoDuplicates(sorted) && ImportsBefore(ImportGraph(disk), sorted)
    && (forall p :: p in sorted <==> Affected(ImportGraph(disk), main, fixed, p))
    && CopiedAll(disk, FixesByBase(disk, fixes, reverseRename), RoundNaming(rename, reverseRename), sorted, disk')
  }

  /**
   * The copies import the copies of what the originals import; nothing affected is left below the
   * new main spec; every import path to an affected spec is one between copies.
   */
  ghost predicate RoundCorrect(g: Graph, g': Graph, main: Path, fixed: seq<Path>, patched: set<Path>, names: Naming,
                               sorted: seq<Path>)
  {
    && Lifted(g, g', names, sorted, patched)
    && (forall q :: Reaches(g', NewPath(names, main), q) ==> !Affected(g, main, fixed, q))
    && (forall p, s :: WalkBetween(g, p, main, s) && s in sorted ==>
          WalkBetween(g', Mirror(names, p), NewPath(names, main), NewPath(names, s)))
  }

  lemma SortedIsAffected(disk: Disk, main: Path, fixed: seq<Path>, specs: seq<Path>, forward: Graph, sorted: seq<Path>)
    requires main in disk && PlanOk(ImportGraph(disk), main, fixed) && Below(ImportGraph(disk), main, forward)
    requires forall f :: f in fixed ==> f in disk
    requires forall p :: p in specs <==> Affected(ImportGraph(disk), main, fixed, p)
    requires forall p :: p in sorted <==> p in specs && !RunsIntoCycle(Inside(specs, forward), p)
    ensures forall p :: p in sorted <==> Affected(ImportGraph(disk), main, fixed, p)
    ensures forall p :: p in sorted ==> p in disk && Reaches(ImportGraph(disk), main, p)
  {
    var g := ImportGraph(disk);
    forall p | Affected(g, main, fixed, p)
      ensures p in sorted && p in disk && Reaches(g, main, p)
    {
      EverythingIsSorted(g, main, fixed, specs, forward, p);
      AffectedIsBelow(g, main, fixed, p);
      ReachableOnDisk(disk, main, p);
    }
  }

  lemma ReachableOnDisk(disk: Disk, main: Path, p: Path)
    requires main in disk && Reaches(ImportGraph(disk), main, p)
    ensures p in disk
  {
    forall v, w | v in disk.Keys && Edge(ImportGraph(disk), v, w)
      ensures w in disk.Keys
    {
      ResolvedOnDisk(disk, v.dir, disk[v], w);
    }
    ClosedHoldsReachable(ImportGraph(disk), disk.Keys, main);
  }

  /** The sorted list is the affected specs, imports first. */
  lemma RoundIsSorted(disk: Disk, main: Path, fixed: seq<Path>, fixes: map<string, Fix>, rename: string -> string,
                      reverseRename: string -> string, specs: seq<Path>, forward: Graph, sorted: seq<Path>, disk': Disk)
    requires Below(ImportGraph(disk), main, forward) && ImportsFirst(specs, forward, sorted) && NoDuplicates(sorted)
    requires forall p :: p in sorted ==> p in specs && Reaches(ImportGraph(disk), main, p)
    requires forall p :: p in sorted <==> Affected(ImportGraph(disk), main, fixed, p)
    requires CopiedAll(disk, FixesByBase(disk, fixes, reverseRename), RoundNaming(rename, reverseRename), sorted, disk')
    ensures IsRound(disk, main, fixed, fixes, rename, reverseRename, sorted, disk')
  {
    BelowEdges(ImportGraph(disk), main, forward);
    forall k, t | 0 <= k < |sorted| && Edge(ImportGraph(disk), sorted[k], t) && t in sorted
      ensures t in sorted[..k]
    {
      assert sorted[k] in sorted;
      assert Free(specs, forward, sorted[k], sorted[..k]);
    }
  }

  lemma SortedHasOneNameEach(disk: Disk, main: Path, fixed: seq<Path>, fixes: map<string, Fix>,
                             rename: string -> string, reverseRename: string -> string, sorted: seq<Path>)
    requires RoundOk(disk, main, fixed, fixes, rename, reverseRename)
    requires forall p :: p in sorted ==> Affected(ImportGraph(disk), main, fixed, p)
    ensures OneNameEach(RoundNaming(rename, reverseRename), sorted)
  {
    var names := RoundNaming(rename, reverseRename);
    forall p, q | p in sorted && q in sorted && names(p) == names(q)
      ensures p == q
    {
      AffectedIsBelow(ImportGraph(disk), main, fixed, p);
      AffectedIsBelow(ImportGraph(disk), main, fixed, q);
      assert BaseIn(reverseRename, p) == BaseIn(reverseRename, q);
    }
  }

  /** The file that is named like a base name below main is the one with that base name. */
  lemma FixIsNamedByBase(disk: Disk, main: Path, fixed: seq<Path>, fixes: map<string, Fix>,
                         rename: string -> string, reverseRename: string -> string, p: Path)
    requires RoundOk(disk, main, fixed, fixes, rename, reverseRename) && Reaches(ImportGraph(disk), main, p)
    requires BaseIn(reverseRename, p) in fixes && forall f :: f in fixed ==> f in disk
    ensures p in fixed && Stem(p.name) == BaseIn(reverseRename, p)
  {
    var base := BaseIn(reverseRename, p);
    assert HasName(fixed, base);
    var f :| f in fixed && f.name == base + ".spec";
    assert f.name == Stem(f.name) + ".spec";
    assert Stem(f.name) == (Stem(f.name) + ".spec")[..|Stem(f.name)|] == base;
    assert BaseIn(reverseRename, f) == BaseIn(reverseRename, p);
  }

  /**
   * A fix that was made for a spec below main is applied to it if and only if the spec's name is its
   * own base name: copies of an earlier round are looked up in vain.
   */
  lemma FixIsAppliedIff(disk: Disk, main: Path, fixed: seq<Path>, fixes: map<string, Fix>,
                        rename: string -> string, reverseRename: string -> string, p: Path)
    requires RoundOk(disk, main, fixed, fixes, rename, reverseRename) && Reaches(ImportGraph(disk), main, p)
    requires p in disk && Stem(p.name) in fixes && forall f :: f in fixed ==> f in disk
    ensures p in FixesByBase(disk, fixes, reverseRename) <==> BaseIn(reverseRename, p) == Stem(p.name)
  {
    if BaseIn(reverseRename, p) in fixes {
      FixIsNamedByBase(disk, main, fixed, fixes, rename, reverseRename, p);
    }
  }

  lemma PatchedAreFixed(disk: Disk, main: Path, fixed: seq<Path>, fixes: map<string, Fix>,
                        rename: string -> string, reverseRename: string -> string, sorted: seq<Path>)
    requires RoundOk(disk, main, fixed, fixes, rename, reverseRename) && forall f :: f in fixed ==> f in disk
    requires forall p :: p in sorted ==> Affected(ImportGraph(disk), main, fixed, p)
    ensures OnlyFixes(sorted, FixesByBase(disk, fixes, reverseRename).Keys, fixed)
  {
    forall p | p in sorted && p in FixesByBase(disk, fixes, reverseRename)
      ensures p in fixed
    {
      AffectedIsBelow(ImportGraph(disk), main, fixed, p);
      FixIsNamedByBase(disk, main, fixed, fixes, rename, reverseRename, p);
    }
  }

  /** Copying the affected specs bottom-up, patching some of the fixed ones. */
  lemma CopiesAreCorrect(disk: Disk, main: Path, fixed: seq<Path>, fixes: map<Path, Fix>, names: Naming,
                         sorted: seq<Path>, disk': Disk)
    requires main in disk && PlanOk(ImportGraph(disk), main, fixed) && OnlyFixes(sorted, fixes.Keys, fixed)
    requires FreshNames(disk, names) && UniqueNames(disk) && OneNameEach(names, sorted)
    requires forall p :: p in disk && p in fixes ==> OnlyRemovesImports(disk[p], fixes[p](disk[p]))
    requires NoDuplicates(sorted) && ImportsBefore(ImportGraph(disk), sorted)
    requires forall p :: p in sorted <==> Affected(ImportGraph(disk), main, fixed, p)
    requires CopiedAll(disk, fixes, names, sorted, disk')
    ensures RoundDone(disk, fixes, names, sorted, disk')
    ensures RoundCorrect(ImportGraph(disk), ImportGraph(disk'), main, fixed, fixes.Keys, names, sorted)
  {
    forall p | p in sorted
      ensures p in disk
    {
      AffectedIsBelow(ImportGraph(disk), main, fixed, p);
      ReachableOnDisk(disk, main, p);
    }
    GraphIsLifted(disk, fixes, names, sorted, disk');
    LiftedIsCorrect(disk, ImportGraph(disk'), main, fixed, fixes.Keys, names, sorted);
  }

  lemma LiftedIsCorrect(disk: Disk, g': Graph, main: Path, fixed: seq<Path>, patched: set<Path>, names: Naming,
                        sorted: seq<Path>)
    requires main in disk && PlanOk(ImportGraph(disk), main, fixed) && OnlyFixes(sorted, patched, fixed)
    requires FreshNames(disk, names) && Lifted(ImportGraph(disk), g', names, sorted, patched)
    requires forall p :: p in sorted <==> Affected(ImportGraph(disk), main, fixed, p)
    ensures RoundCorrect(ImportGraph(disk), g', main, fixed, patched, names, sorted)
  {
    var g := ImportGraph(disk);
    forall q | Reaches(g, main, q)
      ensures q in g
    {
      ReachableOnDisk(disk, main, q);
    }
    forall p | p in sorted
      ensures NewPath(names, p) !in g
    {
      NewPathFresh(disk, names, p);
    }
    forall q | Reaches(g', NewPath(names, main), q)
      ensures !Affected(g, main, fixed, q)
    {
      NewClosureIsClean(g, g', main, fixed, patched, names, sorted, q);
    }
    forall p, s | WalkBetween(g, p, main, s) && s in sorted
      ensures WalkBetween(g', Mirror(names, p), NewPath(names, main), NewPath(names, s))
    {
      PathsAreMirrored(g, g', main, fixed, patched, names, sorted, p, s);
    }
  }

  lemma RoundIsCorrect(disk: Disk, main: Path, fixed: seq<Path>, fixes: map<string, Fix>, rename: string -> string,
                       reverseRename: string -> string, sorted: seq<Path>, disk': Disk)
    requires main in disk && RoundOk(disk, main, fixed, fixes, rename, reverseRename)
    requires forall f :: f in fixed ==> f in disk
    requires IsRound(disk, main, fixed, fixes, rename, reverseRename, sorted, disk')
    ensures RoundDone(disk, FixesByBase(disk, fixes, reverseRename), RoundNaming(rename, reverseRename), sorted, disk')
    ensures RoundCorrect(ImportGraph(disk), ImportGraph(disk'), main, fixed,
                         FixesByBase(disk, fixes, reverseRename).Keys, RoundNaming(rename, reverseRename), sorted)
  {
    PatchedAreFixed(disk, main, fixed, fixes, rename, reverseRename, sorted);
    SortedHasOneNameEach(disk, main, fixed, fixes, rename, reverseRename, sorted);
    CopiesAreCorrect(disk, main, fixed, FixesByBase(disk, fixes, reverseRename), RoundNaming(rename, reverseRename), sorted, disk');
  }
}
