/**
 * Runs of repair rounds: what every round keeps, for any number of rounds. A version that a round
 * replaced is never imported again, and no file ever changes.
 */
module RepairRuns {
  import opened Text
  import opened SpecFiles
  import opened Graphs
  import opened RecursiveUpdate
  import opened RoundCorrectness
  import opened RoundNames

  // ----- One round, seen from the new graph -----

  /** What a round establishes about the import graphs before and after it. */
  ghost predicate RoundGraphs(g: Graph, g': Graph, main: Path, fixed: seq<Path>, patched: set<Path>, names: Naming,
                              sorted: seq<Path>)
  {
    && PlanOk(g, main, fixed) && Lifted(g, g', names, sorted, patched) && OnlyFixes(sorted, patched, fixed)
    && OneNameEach(names, sorted) && (forall p :: p in sorted <==> Affected(g, main, fixed, p))
    && (forall p :: p in sorted ==> NewPath(names, p) !in g)
    && (forall q :: Reaches(g, main, q) ==> q in g)
  }

  /** The file that a file of the new closure is a copy of, or the file itself. */
  ghost function Origin(names: Naming, sorted: seq<Path>, v: Path): Path {
    if p :| p in sorted && NewPath(names, p) == v then p else v
  }

  lemma OriginOfCopy(names: Naming, sorted: seq<Path>, p: Path)
    requires OneNameEach(names, sorted) && p in sorted
    ensures Origin(names, sorted, NewPath(names, p)) == p
  {
    forall q | q in sorted && NewPath(names, q) == NewPath(names, p)
      ensures q == p
    {
      assert names(q) == names(p);
    }
  }

  lemma OriginOfOld(g: Graph, names: Naming, sorted: seq<Path>, v: Path)
    requires v in g && forall p :: p in sorted ==> NewPath(names, p) !in g
    ensures Origin(names, sorted, v) == v
  {
  }

  lemma CopyEdge(g: Graph, g': Graph, main: Path, fixed: seq<Path>, patched: set<Path>, names: Naming,
                 sorted: seq<Path>, p: Path, w: Path)
    requires RoundGraphs(g, g', main, fixed, patched, names, sorted) && p in sorted && Edge(g', NewPath(names, p), w)
    ensures Edge(g, p, Origin(names, sorted, w))
  {
    AffectedIsBelow(g, main, fixed, p);
    if p in patched {
      ReachesThenEdge(g, main, p, w);
      OriginOfOld(g, names, sorted, w);
    } else {
      var i :| 0 <= i < |Get(g, p)| && NewOrSame(names, sorted, Get(g, p)[i]) == w;
      var u := Get(g, p)[i];
      assert Edge(g, p, u);
      ReachesThenEdge(g, main, p, u);
      if u in sorted {
        OriginOfCopy(names, sorted, u);
      } else {
        OriginOfOld(g, names, sorted, u);
      }
    }
  }

  /** Edges of the new closure come from edges of the old one. */
  lemma OriginEdge(g: Graph, g': Graph, main: Path, fixed: seq<Path>, patched: set<Path>, names: Naming,
                   sorted: seq<Path>, v: Path, w: Path)
    requires RoundGraphs(g, g', main, fixed, patched, names, sorted)
    requires Clean(g, main, fixed, names, sorted, v) && Edge(g', v, w)
    ensures Edge(g, Origin(names, sorted, v), Origin(names, sorted, w))
  {
    if IsNew(names, sorted, v) {
      var k :| 0 <= k < |sorted| && v == NewPath(names, sorted[k]);
      assert sorted[k] in sorted;
      OriginOfCopy(names, sorted, sorted[k]);
      CopyEdge(g, g', main, fixed, patched, names, sorted, sorted[k], w);
    } else {
      ReachesThenEdge(g, main, v, w);
      OriginOfOld(g, names, sorted, v);
      OriginOfOld(g, names, sorted, w);
    }
  }

  function Origins(of: Path -> Path, p: seq<Path>): seq<Path> {
    seq(|p|, i requires 0 <= i < |p| => of(p[i]))
  }

  lemma CleanAt(g: Graph, g': Graph, main: Path, fixed: seq<Path>, patched: set<Path>, names: Naming,
                sorted: seq<Path>, p: seq<Path>, i: nat)
    requires RoundGraphs(g, g', main, fixed, patched, names, sorted)
    requires IsWalk(g', p) && Clean(g, main, fixed, names, sorted, p[0]) && i < |p|
    ensures Clean(g, main, fixed, names, sorted, p[i])
  {
    WalkPrefix(g', p, i);
    CleanWalk(g, g', main, fixed, patched, names, sorted, p[..i + 1]);
  }

  lemma OriginWalk(g: Graph, g': Graph, main: Path, fixed: seq<Path>, patched: set<Path>, names: Naming,
                   sorted: seq<Path>, p: seq<Path>, of: Path -> Path)
    requires RoundGraphs(g, g', main, fixed, patched, names, sorted)
    requires IsWalk(g', p) && Clean(g, main, fixed, names, sorted, p[0])
    requires forall v :: of(v) == Origin(names, sorted, v)
    ensures IsWalk(g, Origins(of, p))
  {
    forall i | 0 <= i < |p| - 1
      ensures Edge(g, Origins(of, p)[i], Origins(of, p)[i + 1])
    {
      CleanAt(g, g', main, fixed, patched, names, sorted, p, i);
      assert Edge(g', p[i], p[i + 1]);
      OriginEdge(g, g', main, fixed, patched, names, sorted, p[i], p[i + 1]);
    }
  }

  lemma NewMainIsClean(g: Graph, g': Graph, main: Path, fixed: seq<Path>, patched: set<Path>, names: Naming, sorted: seq<Path>)
    requires RoundGraphs(g, g', main, fixed, patched, names, sorted)
    ensures main in sorted && Clean(g, main, fixed, names, sorted, NewPath(names, main))
  {
    assert main in sorted;
    var k :| 0 <= k < |sorted| && sorted[k] == main;
    assert NewPath(names, sorted[k]) == NewPath(names, main);
  }

  /** A file of the new closure is a copy or an unaffected file of the old one, and its origin is in the old one. */
  lemma NewClosure(g: Graph, g': Graph, main: Path, fixed: seq<Path>, patched: set<Path>, names: Naming,
                   sorted: seq<Path>, v: Path)
    requires RoundGraphs(g, g', main, fixed, patched, names, sorted) && Reaches(g', NewPath(names, main), v)
    ensures Clean(g, main, fixed, names, sorted, v) && Reaches(g, main, Origin(names, sorted, v))
  {
    NewMainIsClean(g, g', main, fixed, patched, names, sorted);
    var p :| WalkBetween(g', p, NewPath(names, main), v);
    CleanWalk(g, g', main, fixed, patched, names, sorted, p);
    if IsNew(names, sorted, v) {
      var k :| 0 <= k < |sorted| && v == NewPath(names, sorted[k]);
      assert sorted[k] in sorted;
      OriginOfCopy(names, sorted, sorted[k]);
      AffectedIsBelow(g, main, fixed, sorted[k]);
    } else {
      OriginOfOld(g, names, sorted, v);
    }
  }

  lemma OriginsAreEnds(g: Graph, of: Path -> Path, p: seq<Path>, v: Path, w: Path)
    requires p != [] && p[0] == v && p[|p| - 1] == w && IsWalk(g, Origins(of, p))
    ensures WalkBetween(g, Origins(of, p), of(v), of(w)) && |Origins(of, p)| == |p|
  {
  }

  /** A cycle of the new closure comes from one of the old closure. */
  lemma OriginCycle(g: Graph, g': Graph, main: Path, fixed: seq<Path>, patched: set<Path>, names: Naming,
                    sorted: seq<Path>, v: Path)
    requires RoundGraphs(g, g', main, fixed, patched, names, sorted)
    requires Clean(g, main, fixed, names, sorted, v) && ReachesPlus(g', v, v)
    ensures ReachesPlus(g, Origin(names, sorted, v), Origin(names, sorted, v))
  {
    var p :| WalkBetween(g', p, v, v) && |p| >= 2;
    ghost var of := u => Origin(names, sorted, u);
    OriginWalk(g, g', main, fixed, patched, names, sorted, p, of);
    OriginsAreEnds(g, of, p, v, v);
  }

  /** A round makes no cycles. */
  lemma StaysAcyclic(g: Graph, g': Graph, main: Path, fixed: seq<Path>, patched: set<Path>, names: Naming, sorted: seq<Path>)
    requires RoundGraphs(g, g', main, fixed, patched, names, sorted)
    ensures AcyclicFrom(g', NewPath(names, main))
  {
    forall v | Reaches(g', NewPath(names, main), v)
      ensures !ReachesPlus(g', v, v)
    {
      NewClosure(g, g', main, fixed, patched, names, sorted, v);
      if ReachesPlus(g', v, v) {
        OriginCycle(g, g', main, fixed, patched, names, sorted, v);
      }
    }
  }

  ghost predicate BasesCopied(names: Naming, sorted: seq<Path>, reverseRename: string -> string) {
    forall p :: p in sorted ==> BaseIn(reverseRename, NewPath(names, p)) == BaseIn(reverseRename, p)
  }

  /** A file of the new closure has the base name of its origin. */
  lemma OriginHasBase(g: Graph, g': Graph, main: Path, fixed: seq<Path>, patched: set<Path>, names: Naming,
                      sorted: seq<Path>, reverseRename: string -> string, v: Path)
    requires RoundGraphs(g, g', main, fixed, patched, names, sorted) && BasesCopied(names, sorted, reverseRename)
    requires Reaches(g', NewPath(names, main), v)
    ensures var u := Origin(names, sorted, v);
      Reaches(g, main, u) && BaseIn(reverseRename, v) == BaseIn(reverseRename, u)
  {
    NewClosure(g, g', main, fixed, patched, names, sorted, v);
  }

  /** At most one file of the new closure comes from each file of the old one. */
  lemma OneCopyEach(g: Graph, g': Graph, main: Path, fixed: seq<Path>, patched: set<Path>, names: Naming,
                    sorted: seq<Path>, v: Path, w: Path)
    requires RoundGraphs(g, g', main, fixed, patched, names, sorted)
    requires Reaches(g', NewPath(names, main), v) && Reaches(g', NewPath(names, main), w)
    requires Origin(names, sorted, v) == Origin(names, sorted, w)
    ensures v == w
  {
    NewClosureIsClean(g, g', main, fixed, patched, names, sorted, v);
    NewClosureIsClean(g, g', main, fixed, patched, names, sorted, w);
  }

  lemma BasesStayOk(g: Graph, g': Graph, main: Path, fixed: seq<Path>, patched: set<Path>, names: Naming,
                    sorted: seq<Path>, reverseRename: string -> string)
    requires RoundGraphs(g, g', main, fixed, patched, names, sorted) && BasesCopied(names, sorted, reverseRename)
    requires BasesOk(g, main, reverseRename)
    ensures BasesOk(g', NewPath(names, main), reverseRename)
  {
    var main' := NewPath(names, main);
    forall p, q | Reaches(g', main', p) && Reaches(g', main', q) && BaseIn(reverseRename, p) == BaseIn(reverseRename, q)
      ensures p == q
    {
      OriginHasBase(g, g', main, fixed, patched, names, sorted, reverseRename, p);
      OriginHasBase(g, g', main, fixed, patched, names, sorted, reverseRename, q);
      OneCopyEach(g, g', main, fixed, patched, names, sorted, p, q);
    }
    forall p | Reaches(g', main', p)
      ensures reverseRename(BaseIn(reverseRename, p)) == BaseIn(reverseRename, p)
    {
      OriginHasBase(g, g', main, fixed, patched, names, sorted, reverseRename, p);
    }
  }

  // ----- The state of the loop -----

  datatype Repair = Repair(disk: Disk, recorded: map<Path, string>, main: Path)

  /** One round: its number, its random string, and the fixes made from its errors. */
  datatype Round = Round(number: nat, random: string, fixes: map<string, Fix>)

  function Rename(r: Round): string -> string {
    base => RoundName(base, r.number, r.random)
  }

  function NamesOf(r: Round): Naming {
    RoundNaming(Rename(r), StripRound)
  }

  function FixesOf(disk: Disk, r: Round): map<Path, Fix> {
    FixesByBase(disk, r.fixes, StripRound)
  }

  /** What every round keeps. */
  ghost predicate Kept(s: Repair) {
    && s.main in s.disk && UniqueNames(s.disk)
    && AcyclicFrom(ImportGraph(s.disk), s.main) && BasesOk(ImportGraph(s.disk), s.main, StripRound)
    && RecordRight(s.recorded)
  }

  ghost predicate RecordRight(recorded: map<Path, string>) {
    forall p :: p in recorded ==> recorded[p] == StripRound(Stem(p.name))
  }

  /** No file has this round's suffix, and none imports a name with it. */
  ghost predicate SuffixUnused(disk: Disk, r: Round) {
    var end := RoundSuffix(r.number, r.random) + ".spec";
    && r.random != "" && AllHex(r.random)
    && (forall p :: p in disk ==> !EndsWith(p.name, end))
    && (forall p, i :: p in disk && 0 <= i < |disk[p]| && disk[p][i].Import? ==> !EndsWith(disk[p][i].file, end))
  }

  ghost predicate NamedByFix(r: Round, p: Path) {
    exists b :: b in r.fixes && p.name == b + ".spec"
  }

  /**
   * The fixes are found for files below main of which none imports another, they only remove
   * imports, and what has the base name of a fix has a file of that name found.
   */
  ghost predicate FixesOk(s: Repair, r: Round, fixed: seq<Path>) {
    var g := ImportGraph(s.disk);
    && (forall p :: p in fixed <==> p in s.disk && NamedByFix(r, p))
    && (forall f :: f in fixed ==> Reaches(g, s.main, f))
    && (forall f, f' :: f in fixed && f' in fixed ==> !ReachesPlus(g, f, f'))
    && (forall p {:trigger HasName(fixed, BaseIn(StripRound, p))} ::
          Reaches(g, s.main, p) && BaseIn(StripRound, p) in r.fixes ==> HasName(fixed, BaseIn(StripRound, p)))
    && (forall p :: p in s.disk && BaseIn(StripRound, p) in r.fixes ==>
          OnlyRemovesImports(s.disk[p], r.fixes[BaseIn(StripRound, p)](s.disk[p])))
  }

  /** One round of the loop. */
  ghost predicate Step(s: Repair, r: Round, fixed: seq<Path>, sorted: seq<Path>, s': Repair) {
    && SuffixUnused(s.disk, r) && FixesOk(s, r, fixed)
    && IsRound(s.disk, s.main, fixed, r.fixes, Rename(r), StripRound, sorted, s'.disk)
    && s'.main == NewPath(NamesOf(r), s.main)
    && s'.recorded == RecordedAll(s.recorded, Rename(r), StripRound, sorted)
  }

  lemma StepIsOk(s: Repair, r: Round, fixed: seq<Path>)
    requires Kept(s) && SuffixUnused(s.disk, r) && FixesOk(s, r, fixed)
    ensures RoundOk(s.disk, s.main, fixed, r.fixes, Rename(r), StripRound)
  {
    RoundNamesAreFresh(s.disk, Rename(r), StripRound, r.number, r.random);
  }

  /** A round from a kept state is correct. */
  lemma StepIsCorrect(s: Repair, r: Round, fixed: seq<Path>, sorted: seq<Path>, s': Repair)
    requires Kept(s) && Step(s, r, fixed, sorted, s')
    ensures RoundDone(s.disk, FixesOf(s.disk, r), NamesOf(r), sorted, s'.disk)
    ensures RoundCorrect(ImportGraph(s.disk), ImportGraph(s'.disk), s.main, fixed, FixesOf(s.disk, r).Keys, NamesOf(r), sorted)
    ensures RoundGraphs(ImportGraph(s.disk), ImportGraph(s'.disk), s.main, fixed, FixesOf(s.disk, r).Keys, NamesOf(r), sorted)
  {
    StepIsOk(s, r, fixed);
    RoundIsCorrect(s.disk, s.main, fixed, r.fixes, Rename(r), StripRound, sorted, s'.disk);
    PatchedAreFixed(s.disk, s.main, fixed, r.fixes, Rename(r), StripRound, sorted);
    forall p | p in sorted
      ensures NewPath(NamesOf(r), p) !in s.disk
    {
      NewPathFresh(s.disk, NamesOf(r), p);
    }
    forall q | Reaches(ImportGraph(s.disk), s.main, q)
      ensures q in s.disk
    {
      ReachableOnDisk(s.disk, s.main, q);
    }
  }

  // ----- What a round keeps -----

  lemma {:induction false} LastDotOf(base: string, ending: string)
    requires '.' !in ending
    ensures LastDot(base + ("." + ending)) == |base|
    decreases |ending|
  {
    var name := base + ("." + ending);
    if ending == "" {
      assert name[|name| - 1] == '.';
    } else {
      var last := |ending| - 1;
      assert name[..|name| - 1] == base + ("." + ending[..last]) && name[|name| - 1] == ending[last];
      LastDotOf(base, ending[..last]);
    }
  }

  lemma {:induction false} NoDotAtAll(name: string)
    requires '.' !in name
    ensures LastDot(name) == -1
  {
    if name != "" {
      NoDotAtAll(name[..|name| - 1]);
    }
  }

  /** A stem is what stands before the last dot, if something stands on both sides of it, and else the whole name. */
  lemma StemCases(base: string, ending: string)
    requires '.' !in ending
    ensures Stem(ending) == ending
    ensures Stem(base + ("." + ending)) == if base != "" && ending != "" then base else base + ("." + ending)
  {
    NoDotAtAll(ending);
    LastDotOf(base, ending);
    assert (base + ("." + ending))[..|base|] == base;
  }

  lemma StemOf(base: string)
    requires base != ""
    ensures Stem(base + ".spec") == base
  {
    assert base + ("." + "spec") == base + ".spec";
    LastDotOf(base, "spec");
    assert (base + ".spec")[..|base|] == base;
  }

  /** The copy's base name is the original's. */
  lemma CopyHasBase(r: Round, p: Path)
    requires r.random != "" && AllHex(r.random) && p.name == Stem(p.name) + ".spec"
    ensures NewPath(NamesOf(r), p).name == Stem(NewPath(NamesOf(r), p).name) + ".spec"
    ensures BaseIn(StripRound, NewPath(NamesOf(r), p)) == BaseIn(StripRound, p)
  {
    var base := BaseIn(StripRound, p);
    StemIsNamed(p);
    StripIsNamed(Stem(p.name), 1);
    StemOf(RoundName(base, r.number, r.random));
    StripUndoesRename(base, r.number, r.random);
  }

  lemma StemIsNamed(p: Path)
    requires p.name == Stem(p.name) + ".spec"
    ensures Stem(p.name) != ""
  {
  }

  lemma {:induction false} StripIsNamed(name: string, k: nat)
    requires name != "" && 1 <= k
    ensures StripFrom(name, k) != ""
    decreases |name| - k
  {
    if k < |name| && !IsRoundSuffix(name[k..]) {
      StripIsNamed(name, k + 1);
    }
  }

  lemma NewFileIsCopy(s: Repair, r: Round, fixed: seq<Path>, sorted: seq<Path>, s': Repair, p: Path) returns (q: Path)
    requires Kept(s) && Step(s, r, fixed, sorted, s') && p in s'.disk && p !in s.disk
    ensures q in sorted && q in s.disk && p == NewPath(NamesOf(r), q)
  {
    StepIsCorrect(s, r, fixed, sorted, s');
    assert IsNew(NamesOf(r), sorted, p);
    var k :| 0 <= k < |sorted| && p == NewPath(NamesOf(r), sorted[k]);
    q := sorted[k];
  }

  lemma NewNameIsFresh(s: Repair, r: Round, fixed: seq<Path>, sorted: seq<Path>, s': Repair, p: Path, q: Path)
    requires Kept(s) && Step(s, r, fixed, sorted, s') && p in s'.disk && p !in s.disk && q in s.disk
    ensures p.name != q.name
  {
    StepIsCorrect(s, r, fixed, sorted, s');
    var p0 := NewFileIsCopy(s, r, fixed, sorted, s', p);
    assert p.name == NamesOf(r)(p0);
  }

  lemma CopiesDiffer(s: Repair, r: Round, fixed: seq<Path>, sorted: seq<Path>, s': Repair, p: Path, q: Path)
    requires Kept(s) && Step(s, r, fixed, sorted, s')
    requires p in s'.disk && p !in s.disk && q in s'.disk && q !in s.disk && p.name == q.name
    ensures p == q
  {
    StepIsCorrect(s, r, fixed, sorted, s');
    var p0 := NewFileIsCopy(s, r, fixed, sorted, s', p);
    var q0 := NewFileIsCopy(s, r, fixed, sorted, s', q);
    assert NamesOf(r)(p0) == NamesOf(r)(q0);
  }

  lemma StaysUnique(s: Repair, r: Round, fixed: seq<Path>, sorted: seq<Path>, s': Repair, p: Path, q: Path)
    requires Kept(s) && Step(s, r, fixed, sorted, s') && p in s'.disk && q in s'.disk && p.name == q.name
    ensures p == q
  {
    if p !in s.disk && q !in s.disk {
      CopiesDiffer(s, r, fixed, sorted, s', p, q);
    } else if p !in s.disk {
      NewNameIsFresh(s, r, fixed, sorted, s', p, q);
    } else if q !in s.disk {
      NewNameIsFresh(s, r, fixed, sorted, s', q, p);
    }
  }

  lemma NamesStayUnique(s: Repair, r: Round, fixed: seq<Path>, sorted: seq<Path>, s': Repair)
    requires Kept(s) && Step(s, r, fixed, sorted, s')
    ensures UniqueNames(s'.disk)
  {
    forall p, q | p in s'.disk && q in s'.disk && p.name == q.name
      ensures p == q
    {
      StaysUnique(s, r, fixed, sorted, s', p, q);
    }
    forall p | p in s'.disk
      ensures p.name == Stem(p.name) + ".spec"
    {
      if p !in s.disk {
        var q := NewFileIsCopy(s, r, fixed, sorted, s', p);
        CopyHasBase(r, q);
      }
    }
  }

  lemma GraphStaysOk(s: Repair, r: Round, fixed: seq<Path>, sorted: seq<Path>, s': Repair)
    requires Kept(s) && Step(s, r, fixed, sorted, s')
    ensures AcyclicFrom(ImportGraph(s'.disk), s'.main) && BasesOk(ImportGraph(s'.disk), s'.main, StripRound)
  {
    var g, g', patched := ImportGraph(s.disk), ImportGraph(s'.disk), FixesOf(s.disk, r).Keys;
    StepIsCorrect(s, r, fixed, sorted, s');
    CopiesHaveBases(s.disk, r, sorted);
    StaysAcyclic(g, g', s.main, fixed, patched, NamesOf(r), sorted);
    BasesStayOk(g, g', s.main, fixed, patched, NamesOf(r), sorted, StripRound);
  }

  lemma CopiesHaveBases(disk: Disk, r: Round, sorted: seq<Path>)
    requires r.random != "" && AllHex(r.random) && UniqueNames(disk) && forall p :: p in sorted ==> p in disk
    ensures BasesCopied(NamesOf(r), sorted, StripRound)
  {
    forall p | p in sorted
      ensures BaseIn(StripRound, NewPath(NamesOf(r), p)) == BaseIn(StripRound, p)
    {
      CopyHasBase(r, p);
    }
  }

  lemma RecordStep(recorded: map<Path, string>, r: Round, p: Path)
    requires r.random != "" && AllHex(r.random) && p.name == Stem(p.name) + ".spec" && RecordRight(recorded)
    ensures RecordRight(Recorded(recorded, StripRound, p, NewPath(NamesOf(r), p)))
  {
    CopyHasBase(r, p);
  }

  lemma {:induction false} RecordStays(disk: Disk, recorded: map<Path, string>, r: Round, sorted: seq<Path>)
    requires r.random != "" && AllHex(r.random) && UniqueNames(disk) && forall p :: p in sorted ==> p in disk
    requires RecordRight(recorded)
    ensures RecordRight(RecordedAll(recorded, Rename(r), StripRound, sorted))
  {
    if sorted != [] {
      var last := sorted[|sorted| - 1];
      assert last in sorted;
      RecordStays(disk, recorded, r, sorted[..|sorted| - 1]);
      RecordStep(RecordedAll(recorded, Rename(r), StripRound, sorted[..|sorted| - 1]), r, last);
    }
  }

  lemma SortedOnDisk(s: Repair, r: Round, fixed: seq<Path>, sorted: seq<Path>, s': Repair)
    requires Kept(s) && Step(s, r, fixed, sorted, s')
    ensures forall p :: p in sorted ==> p in s.disk
  {
    StepIsCorrect(s, r, fixed, sorted, s');
  }

  lemma RecordStaysRight(s: Repair, r: Round, fixed: seq<Path>, sorted: seq<Path>, s': Repair)
    requires Kept(s) && Step(s, r, fixed, sorted, s')
    ensures RecordRight(s'.recorded)
  {
    SortedOnDisk(s, r, fixed, sorted, s');
    RecordStays(s.disk, s.recorded, r, sorted);
  }

  /** Every round keeps what it needs. */
  lemma StepKeeps(s: Repair, r: Round, fixed: seq<Path>, sorted: seq<Path>, s': Repair)
    requires Kept(s) && Step(s, r, fixed, sorted, s')
    ensures Kept(s')
  {
    MainIsCopied(s, r, fixed, sorted, s');
    NamesStayUnique(s, r, fixed, sorted, s');
    GraphStaysOk(s, r, fixed, sorted, s');
    RecordStaysRight(s, r, fixed, sorted, s');
  }

  lemma MainIsCopied(s: Repair, r: Round, fixed: seq<Path>, sorted: seq<Path>, s': Repair)
    requires Kept(s) && Step(s, r, fixed, sorted, s')
    ensures s'.main in s'.disk
  {
    assert s.main in sorted;
    var k: nat :| k < |sorted| && sorted[k] == s.main;
    assert CopyMade(s.disk, FixesOf(s.disk, r), NamesOf(r), sorted, s'.disk, k);
  }

  lemma FoundIsNamed(disk: Disk, bases: seq<string>, r: Round, fixed: seq<Path>)
    requires FoundFor(disk, bases, fixed) && forall b :: b in bases <==> b in r.fixes
    ensures forall p :: p in fixed <==> p in disk && NamedByFix(r, p)
  {
    forall p
      ensures NamedBy(bases, p) <==> NamedByFix(r, p)
    {
      if NamedBy(bases, p) {
        var b :| b in bases && p.name == b + ".spec";
        assert b in r.fixes;
      }
      if NamedByFix(r, p) {
        var b :| b in r.fixes && p.name == b + ".spec";
        assert b in bases;
      }
    }
  }

  function StateOf(updater: SpecUpdater, main: Path): Repair
    reads updater
  {
    Repair(updater.disk, updater.specBaseNames, main)
  }

  /** Running a round from a kept state is a step, and the state is kept. */
  method HandleRound(updater: SpecUpdater, main: Path, r: Round, bases: seq<string>)
    returns (newMain: Path, ghost fixed: seq<Path>, ghost sorted: seq<Path>)
    requires Kept(StateOf(updater, main)) && SuffixUnused(updater.disk, r)
    requires NoDuplicates(bases) && forall b :: b in bases <==> b in r.fixes
    requires forall fixed :: FoundFor(updater.disk, bases, fixed) ==> FixesOk(StateOf(updater, main), r, fixed)
    modifies updater
    ensures Step(old(StateOf(updater, main)), r, fixed, sorted, StateOf(updater, newMain))
    ensures Kept(StateOf(updater, newMain))
  {
    ghost var s := StateOf(updater, main);
    forall fixed | FoundFor(updater.disk, bases, fixed)
      ensures RoundOk(updater.disk, main, fixed, r.fixes, Rename(r), StripRound)
    {
      StepIsOk(s, r, fixed);
    }
    newMain, fixed, sorted := PerformRecursiveUpdate(updater, bases, r.fixes, main, Rename(r), StripRound);
    FoundIsNamed(s.disk, bases, r, fixed);
    StepKeeps(s, r, fixed, sorted, StateOf(updater, newMain));
  }

  // ----- The record of base names -----

  predicate IsFor(tracked: (Path, string), name: string) {
    Stem(tracked.0.name) == name || Stem(name) == Stem(tracked.0.name)
  }

  /**
   * The base name of a name: from the record, else by stripping the suffix. A right record gives what
   * stripping gives, unless the name has a dot and the part before its last dot is on record.
   */
  method ReverseRename(tracked: seq<(Path, string)>, name: string) returns (base: string)
    requires forall k :: 0 <= k < |tracked| ==> tracked[k].1 == StripRound(Stem(tracked[k].0.name))
    ensures base == StripRound(name) || (base == StripRound(Stem(name)) && exists k :: 0 <= k < |tracked| && IsFor(tracked[k], name))
    ensures (forall k :: 0 <= k < |tracked| && IsFor(tracked[k], name) ==> Stem(tracked[k].0.name) == name) ==> base == StripRound(name)
    ensures var found := k => 0 <= k < |tracked| && (Stem(tracked[k].0.name) == name || Stem(name) == Stem(tracked[k].0.name));
      if exists k :: found(k) then exists k :: found(k) && base == tracked[k].1 && forall j :: 0 <= j < k ==> !found(j)
      else base == StripRound(name)
  {
    for k := 0 to |tracked|
      invariant forall i :: 0 <= i < k ==> !IsFor(tracked[i], name)
    {
      if IsFor(tracked[k], name) {
        return tracked[k].1;
      }
    }
    base := StripRound(name);
  }

  // ----- Fixes of later rounds -----

  /**
   * A fix made for a spec below main reaches its copy if and only if the spec's name has no round
   * suffix: the copies of earlier rounds are looked up by their base names and stay unfixed.
   */
  lemma FixReachesCopyIff(s: Repair, r: Round, fixed: seq<Path>, p: Path)
    requires Kept(s) && SuffixUnused(s.disk, r) && FixesOk(s, r, fixed)
    requires Reaches(ImportGraph(s.disk), s.main, p) && Stem(p.name) in r.fixes
    ensures p in FixesOf(s.disk, r) <==> StripRound(Stem(p.name)) == Stem(p.name)
  {
    StepIsOk(s, r, fixed);
    ReachableOnDisk(s.disk, s.main, p);
    FixIsAppliedIff(s.disk, s.main, fixed, r.fixes, Rename(r), StripRound, p);
  }

  lemma CopyHasSuffix(r: Round, p: Path)
    requires r.random != "" && AllHex(r.random) && p.name == Stem(p.name) + ".spec"
    ensures StripRound(Stem(NewPath(NamesOf(r), p).name)) != Stem(NewPath(NamesOf(r), p).name)
  {
    var base := BaseIn(StripRound, p);
    StemIsNamed(p);
    StripIsNamed(Stem(p.name), 1);
    StemOf(RoundName(base, r.number, r.random));
    StripUndoesRename(base, r.number, r.random);
  }

  /** The copy of a copy is the redirected copy, whatever fix was made for it. */
  lemma LaterFixIsLost(s: Repair, earlier: Round, r: Round, fixed: seq<Path>, sorted: seq<Path>, s': Repair, p: Path, k: nat)
    requires Kept(s) && Step(s, r, fixed, sorted, s')
    requires earlier.random != "" && AllHex(earlier.random) && p.name == Stem(p.name) + ".spec"
    requires k < |sorted| && sorted[k] == NewPath(NamesOf(earlier), p) && Stem(sorted[k].name) in r.fixes
    ensures sorted[k] in s.disk && NewPath(NamesOf(r), sorted[k]) in s'.disk
    ensures s'.disk[NewPath(NamesOf(r), sorted[k])] == Rewrite(s.disk[sorted[k]], UpdatesOf(NamesOf(r), sorted[..k]))
  {
    StepIsCorrect(s, r, fixed, sorted, s');
    assert CopyMade(s.disk, FixesOf(s.disk, r), NamesOf(r), sorted, s'.disk, k);
    assert sorted[k] in sorted;
    AffectedIsBelow(ImportGraph(s.disk), s.main, fixed, sorted[k]);
    CopyHasSuffix(earlier, p);
    FixReachesCopyIff(s, r, fixed, sorted[k]);
  }

  // ----- Runs -----

  ghost predicate Next(s: Repair, s': Repair) {
    exists r, fixed, sorted :: Step(s, r, fixed, sorted, s')
  }

  ghost predicate StepsAt<S>(run: seq<S>, next: (S, S) -> bool, k: nat) {
    k + 1 < |run| ==> next(run[k], run[k + 1])
  }

  ghost predicate IsChain<S>(run: seq<S>, next: (S, S) -> bool) {
    run != [] && forall k: nat :: StepsAt(run, next, k)
  }

  ghost predicate IsRun(run: seq<Repair>) {
    IsChain(run, (s, s') => Next(s, s'))
  }

  /** What holds somewhere in a run and is kept by every round holds from there on. */
  lemma {:induction false} HoldsOn<S>(run: seq<S>, next: (S, S) -> bool, ok: S -> bool, i: nat, j: nat)
    requires i <= j < |run| && ok(run[i]) && IsChain(run, next)
    requires forall s, s' :: ok(s) && next(s, s') ==> ok(s')
    ensures ok(run[j])
    decreases j
  {
    if i < j {
      HoldsOn(run, next, ok, i, j - 1);
      assert StepsAt(run, next, j - 1);
    }
  }

  lemma NextKeeps(s: Repair, s': Repair)
    requires Kept(s) && Next(s, s')
    ensures Kept(s')
  {
    var r, fixed, sorted :| Step(s, r, fixed, sorted, s');
    StepKeeps(s, r, fixed, sorted, s');
  }

  /** What every round needs holds in every state of every run. */
  lemma RunKeeps(run: seq<Repair>, i: nat)
    requires IsRun(run) && Kept(run[0]) && i < |run|
    ensures Kept(run[i])
  {
    forall s, s' | Kept(s) && Next(s, s')
      ensures Kept(s')
    {
      NextKeeps(s, s');
    }
    HoldsOn(run, (s, s') => Next(s, s'), s => Kept(s), 0, i);
  }

  ghost predicate FilesStay(disk: Disk, disk': Disk) {
    forall p :: p in disk ==> p in disk' && disk'[p] == disk[p]
  }

  lemma NextChangesNoFile(s: Repair, s': Repair)
    requires Next(s, s')
    ensures FilesStay(s.disk, s'.disk)
  {
    var r, fixed, sorted :| Step(s, r, fixed, sorted, s');
  }

  lemma FilesStayOn(disk: Disk, disk': Disk, disk'': Disk)
    requires FilesStay(disk, disk') && FilesStay(disk', disk'')
    ensures FilesStay(disk, disk'')
  {
  }

  /** No round changes a file. */
  lemma RunChangesNoFile(run: seq<Repair>, i: nat, j: nat)
    requires IsRun(run) && i <= j < |run|
    ensures FilesStay(run[i].disk, run[j].disk)
  {
    var disk := run[i].disk;
    forall s: Repair, s': Repair | FilesStay(disk, s.disk) && Next(s, s')
      ensures FilesStay(disk, s'.disk)
    {
      NextChangesNoFile(s, s');
      FilesStayOn(disk, s.disk, s'.disk);
    }
    HoldsOn(run, (s, s') => Next(s, s'), (s: Repair) => FilesStay(disk, s.disk), i, j);
  }

  /** The round from `s` to `s'` makes a copy of `q`. */
  ghost predicate Replaced(s: Repair, s': Repair, q: Path) {
    exists r, fixed, sorted :: Step(s, r, fixed, sorted, s') && q in sorted
  }

  /** A file that is not imported below main. */
  ghost predicate IsOut(s: Repair, q: Path) {
    q in s.disk && !Reaches(ImportGraph(s.disk), s.main, q)
  }

  lemma ReplacedIsOut(s: Repair, s': Repair, q: Path)
    requires Kept(s) && Replaced(s, s', q)
    ensures IsOut(s', q)
  {
    var r, fixed, sorted :| Step(s, r, fixed, sorted, s') && q in sorted;
    StepIsCorrect(s, r, fixed, sorted, s');
  }

  /** What is not imported below main is not imported after a round either. */
  lemma StaysOut(s: Repair, s': Repair, q: Path)
    requires Kept(s) && Next(s, s') && IsOut(s, q)
    ensures IsOut(s', q)
  {
    var r, fixed, sorted :| Step(s, r, fixed, sorted, s');
    StepIsCorrect(s, r, fixed, sorted, s');
    if Reaches(ImportGraph(s'.disk), s'.main, q) {
      NewClosure(ImportGraph(s.disk), ImportGraph(s'.disk), s.main, fixed, FixesOf(s.disk, r).Keys, NamesOf(r), sorted, q);
      OriginOfOld(ImportGraph(s.disk), NamesOf(r), sorted, q);
    }
  }

  lemma StaysOutOfRun(run: seq<Repair>, i: nat, j: nat, q: Path)
    requires IsRun(run) && i <= j < |run| && Kept(run[i]) && IsOut(run[i], q)
    ensures IsOut(run[j], q)
  {
    forall s, s' | Kept(s) && IsOut(s, q) && Next(s, s')
      ensures Kept(s') && IsOut(s', q)
    {
      NextKeeps(s, s');
      StaysOut(s, s', q);
    }
    HoldsOn(run, (s, s') => Next(s, s'), s => Kept(s) && IsOut(s, q), i, j);
  }

  /**
   * In every run, a version that a round replaced (the one from state i to state k) is never imported
   * again below the main spec.
   */
  lemma NoOldVersionReturns(run: seq<Repair>, i: nat, k: nat, j: nat, q: Path)
    requires IsRun(run) && Kept(run[0]) && k == i + 1 <= j < |run| && Replaced(run[i], run[k], q)
    ensures IsOut(run[j], q)
  {
    RunKeeps(run, i);
    RunKeeps(run, k);
    ReplacedIsOut(run[i], run[k], q);
    StaysOutOfRun(run, k, j, q);
  }
}
