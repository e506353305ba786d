/**
 * One round of the typechecker repair loop, keeping intermediate files: the specs to fix and their
 * ancestors are copied bottom-up under round names, each copy importing the copies made before it.
 */
module RecursiveUpdate {
  import opened SpecFiles
  import opened Graphs
  import opened SpecGraph
  import opened TopologicalSort

  type Fix = SpecFile -> SpecFile

  // ----- Which specs are updated, and in which order -----

  /** The specs that must be copied: the fixes, their ancestors below the main spec, and the main spec. */
  ghost predicate Affected(g: Graph, main: Path, fixes: seq<Path>, p: Path) {
    p in fixes || p == main || (Reaches(g, main, p) && exists f :: f in fixes && ReachesPlus(g, p, f))
  }

  method SetToSeq(s: set<Path>) returns (r: seq<Path>)
    ensures NoDuplicates(r) && forall p :: p in r <==> p in s
  {
    r := [];
    var rest := s;
    while rest != {}
      invariant NoDuplicates(r) && rest <= s
      invariant forall p :: p in r <==> p in s && p !in rest
    {
      var p :| p in rest;
      r, rest := r + [p], rest - {p};
    }
  }

  /** Below main, and imports one of the first n fixes. */
  ghost predicate ImportsFix(g: Graph, main: Path, fixes: seq<Path>, n: nat, p: Path)
    requires n <= |fixes|
  {
    Reaches(g, main, p) && exists j :: 0 <= j < n && ReachesPlus(g, p, fixes[j])
  }

  lemma ImportsFixNext(g: Graph, main: Path, fixes: seq<Path>, n: nat, p: Path)
    requires n < |fixes|
    ensures ImportsFix(g, main, fixes, n + 1, p)
       <==> ImportsFix(g, main, fixes, n, p) || (Reaches(g, main, p) && ReachesPlus(g, p, fixes[n]))
  {
  }

  lemma ImportsSomeFix(g: Graph, main: Path, fixes: seq<Path>, p: Path)
    ensures ImportsFix(g, main, fixes, |fixes|, p) <==> Reaches(g, main, p) && exists f :: f in fixes && ReachesPlus(g, p, f)
  {
    if f :| f in fixes && ReachesPlus(g, p, f) {
      var j :| 0 <= j < |fixes| && fixes[j] == f;
    }
  }

  method AncestorsBelow(ghost g: Graph, ghost forward: Graph, reverse: Graph, ghost main: Path, spec: Path)
    returns (ancestors: set<Path>)
    requires Below(g, main, forward) && Transposed(forward, reverse)
    ensures forall p :: p in ancestors <==> Reaches(g, main, p) && ReachesPlus(g, p, spec)
  {
    var found := FindAllAncestors(spec, reverse);
    forall p
      ensures p in found <==> Reaches(g, main, p) && ReachesPlus(g, p, spec)
    {
      AncestorsAreImporters(g, main, forward, reverse, spec, p);
    }
    ancestors := set p | p in found;
  }

  method CollectAncestors(ghost g: Graph, ghost forward: Graph, reverse: Graph, main: Path, fixes: seq<Path>)
    returns (ancestors: set<Path>)
    requires Below(g, main, forward) && Transposed(forward, reverse)
    ensures forall p :: p in ancestors <==> Reaches(g, main, p) && exists f :: f in fixes && ReachesPlus(g, p, f)
  {
    ancestors := {};
    for i := 0 to |fixes|
      invariant forall p :: p in ancestors <==> ImportsFix(g, main, fixes, i, p)
    {
      var more := AncestorsBelow(g, forward, reverse, main, fixes[i]);
      forall p
        ensures ImportsFix(g, main, fixes, i + 1, p) <==> p in ancestors || p in more
      {
        ImportsFixNext(g, main, fixes, i, p);
      }
      ancestors := ancestors + more;
    }
    forall p
      ensures p in ancestors <==> Reaches(g, main, p) && exists f :: f in fixes && ReachesPlus(g, p, f)
    {
      ImportsSomeFix(g, main, fixes, p);
    }
  }

  lemma CopiesOfFixesWait(g: Graph, main: Path, forward: Graph, fixes: seq<Path>, others: seq<Path>)
    requires Below(g, main, forward) && NoDuplicates(fixes) && NoDuplicates(others)
    requires forall p :: p in fixes + others <==> Affected(g, main, fixes, p)
    requires main in others ==> main !in fixes || exists f :: f in fixes && ReachesPlus(g, main, f)
    requires forall p :: p in others ==> p == main || (Reaches(g, main, p) && exists f :: f in fixes && ReachesPlus(g, p, f))
    ensures CopiesWait(fixes + others, forward)
  {
    var specs := fixes + others;
    forall i, j | 0 <= i < j < |specs| && specs[i] == specs[j]
      ensures !Free(specs, forward, specs[i], [])
    {
      var p := specs[i];
      assert p in fixes && p in others;
      var f :| f in fixes && ReachesPlus(g, p, f);
      ReachesSelf(g, main);
      var q := PlusFirstEdge(g, p, f);
      BelowEdges(g, main, forward);
      ReachesThenEdge(g, main, p, q);
      ReachesCases(g, q, f);
      assert Affected(g, main, fixes, q);
      assert q in Get(forward, p) && q in specs;
    }
  }

  /**
   * The list to update holds every affected spec; sorting it emits exactly those that do not run
   * into an import cycle among the affected specs, each once and after its affected imports.
   */
  method SpecsToUpdate(disk: Disk, main: Path, fixes: seq<Path>)
    returns (specs: seq<Path>, forward: Graph, sorted: seq<Path>)
    requires main in disk && NoDuplicates(fixes)
    ensures Below(ImportGraph(disk), main, forward) && SimpleLists(forward)
    ensures forall p :: p in specs <==> Affected(ImportGraph(disk), main, fixes, p)
    ensures NoDuplicates(sorted) && ImportsFirst(specs, forward, sorted)
    ensures forall p :: p in sorted <==> p in specs && !RunsIntoCycle(Inside(specs, forward), p)
  {
    ghost var g := ImportGraph(disk);
    var reverse;
    forward, reverse := BuildSpecDependencyGraph(disk, main);
    var ancestors := CollectAncestors(g, forward, reverse, main, fixes);
    if main !in ancestors && main !in fixes {
      ancestors := ancestors + {main};
    }
    var others := SetToSeq(ancestors);
    specs := fixes + others;
    CopiesOfFixesWait(g, main, forward, fixes, others);
    sorted := Sort(specs, forward);
    forall p | p in specs
      ensures p in sorted <==> !RunsIntoCycle(Inside(specs, forward), p)
    {
      SortedIffAvoidsCycles(specs, forward, sorted, p);
    }
  }

  // ----- Names -----

  function LastDot(s: string): int
    ensures -1 <= LastDot(s) < |s|
  {
    if s == "" then -1
    else if s[|s| - 1] == '.' then |s| - 1
    else LastDot(s[..|s| - 1])
  }

  /** A file name without its last extension. */
  function Stem(name: string): string {
    var i := LastDot(name);
    if 0 < i < |name| - 1 then name[..i] else name
  }

  function NewName(rename: string -> string, base: string): string {
    rename(base) + ".spec"
  }

  /** The new file name of each spec. */
  type Naming = Path -> string

  function NewPath(names: Naming, p: Path): Path {
    Path(p.dir, names(p))
  }

  // ----- Rewriting imports -----

  function Redirect(item: Item, oldName: string, newName: string): Item {
    if item.Import? && item.file == oldName then item.(file := newName) else item
  }

  function RedirectAll(file: SpecFile, oldName: string, newName: string): SpecFile {
    seq(|file|, i requires 0 <= i < |file| => Redirect(file[i], oldName, newName))
  }

  /** All file-name updates applied to a file, one after the other. */
  function Rewrite(file: SpecFile, updates: seq<(string, string)>): SpecFile {
    if updates == [] then file
    else
      var last := updates[|updates| - 1];
      RedirectAll(Rewrite(file, updates[..|updates| - 1]), last.0, last.1)
  }

  method UpdateImports(file: SpecFile, updates: seq<(string, string)>) returns (content: SpecFile)
    ensures content == Rewrite(file, updates)
  {
    content := file;
    for i := 0 to |updates|
      invariant content == Rewrite(file, updates[..i])
    {
      assert updates[..i + 1][..i] == updates[..i];
      content := RedirectAll(content, updates[i].0, updates[i].1);
    }
    assert updates[..|updates|] == updates;
  }

  // ----- Copying, bottom-up -----

  function UpdatesOf(names: Naming, done: seq<Path>): seq<(string, string)> {
    seq(|done|, i requires 0 <= i < |done| => (done[i].name, NewPath(names, done[i]).name))
  }

  /** What the copy of `p` holds when the specs in `done` have been copied before. */
  function Copied(disk: Disk, fixes: map<Path, Fix>, names: Naming, done: seq<Path>, p: Path): SpecFile
    requires p in disk
  {
    if p in fixes then fixes[p](disk[p])
    else Rewrite(disk[p], UpdatesOf(names, done))
  }

  ghost predicate IsNew(names: Naming, done: seq<Path>, p: Path) {
    exists k :: 0 <= k < |done| && p == NewPath(names, done[k])
  }

  ghost predicate CopyMade(disk: Disk, fixes: map<Path, Fix>, names: Naming, done: seq<Path>, disk': Disk, k: nat) {
    && k < |done|
    && done[k] in disk
    && NewPath(names, done[k]) in disk'
    && disk'[NewPath(names, done[k])] == Copied(disk, fixes, names, done[..k], done[k])
  }

  /** The disk after the specs in `done` have been copied, in that order: nothing else changed. */
  ghost predicate CopiedAll(disk: Disk, fixes: map<Path, Fix>, names: Naming, done: seq<Path>, disk': Disk) {
    && (forall p :: p in disk ==> p in disk' && disk'[p] == disk[p])
    && (forall p :: p in disk' ==> p in disk || IsNew(names, done, p))
    && (forall k: nat :: k < |done| ==> CopyMade(disk, fixes, names, done, disk', k))
  }

  /** The round's names are new: no file has one and none is imported. */
  ghost predicate FreshNames(disk: Disk, names: Naming) {
    && (forall p, q :: p in disk ==> p.name != names(q))
    && (forall p, i, q :: p in disk && 0 <= i < |disk[p]| && disk[p][i].Import? ==> disk[p][i].file != names(q))
  }

  /** Different specs get different names. */
  ghost predicate OneNameEach(names: Naming, sorted: seq<Path>) {
    forall p, q :: p in sorted && q in sorted && names(p) == names(q) ==> p == q
  }

  /** Spec file names identify files, and are their stems followed by the extension. */
  ghost predicate UniqueNames(disk: Disk) {
    && (forall p, q :: p in disk && q in disk && p.name == q.name ==> p == q)
    && (forall p :: p in disk ==> p.name == Stem(p.name) + ".spec")
  }

  /** The base name that the reverse renaming makes of a spec's stem. */
  function BaseIn(reverseRename: string -> string, p: Path): string {
    reverseRename(Stem(p.name))
  }

  /** The base name on record, or else that one. */
  function BaseName(recorded: map<Path, string>, reverseRename: string -> string, spec: Path): string {
    if spec in recorded then recorded[spec] else BaseIn(reverseRename, spec)
  }

  /** The base names on record for files of the disk are what the reverse renaming makes of their stems. */
  ghost predicate BasesRecorded(disk: Disk, recorded: map<Path, string>, reverseRename: string -> string) {
    forall p :: p in disk && p in recorded ==> recorded[p] == BaseIn(reverseRename, p)
  }

  /** The names of a round: the base name, renamed. */
  function RoundNaming(rename: string -> string, reverseRename: string -> string): Naming {
    (p: Path) => NewName(rename, BaseIn(reverseRename, p))
  }

  /** Fixes are looked up by base name. */
  function FixesByBase(disk: Disk, fixes: map<string, Fix>, reverseRename: string -> string): map<Path, Fix> {
    map p | p in disk && BaseIn(reverseRename, p) in fixes :: fixes[BaseIn(reverseRename, p)]
  }

  class SpecUpdater {
    var disk: Disk
    var specBaseNames: map<Path, string>

    constructor (disk: Disk)
      ensures this.disk == disk && specBaseNames == map[]
    {
      this.disk := disk;
      specBaseNames := map[];
    }

    /**
     * Copies one spec under its round name, fixed or with its imports redirected. Its base name is
     * the one on record from an earlier round, or else what the reverse renaming makes of its stem.
     */
    method CopySpec(spec: Path, fixes: map<string, Fix>, rename: string -> string, reverseRename: string -> string,
                    importUpdates: seq<(string, string)>)
      returns (newSpec: Path)
      requires spec in disk
      modifies this
      ensures var base := BaseName(old(specBaseNames), reverseRename, spec);
        && newSpec == Path(spec.dir, NewName(rename, if base in fixes then BaseIn(reverseRename, spec) else base))
        && disk == old(disk)[newSpec := if base in fixes then fixes[base](old(disk)[spec]) else Rewrite(old(disk)[spec], importUpdates)]
        && specBaseNames == old(specBaseNames)[spec := base][newSpec := base]
    {
      if spec !in specBaseNames {
        specBaseNames := specBaseNames[spec := BaseIn(reverseRename, spec)];
      }
      var base := specBaseNames[spec];
      var content;
      if base in fixes {
        content := fixes[base](disk[spec]);
        newSpec := Path(spec.dir, NewName(rename, BaseIn(reverseRename, spec)));
      } else {
        content := UpdateImports(disk[spec], importUpdates);
        newSpec := Path(spec.dir, NewName(rename, base));
      }
      disk := disk[newSpec := content];
      specBaseNames := specBaseNames[newSpec := base];
    }

    /** Copies the n-th spec, after those before it. */
    method CopyNext(ghost first: Disk, ghost record: map<Path, string>, sorted: seq<Path>, n: nat, fixes: map<string, Fix>,
                    rename: string -> string, reverseRename: string -> string, importUpdates: seq<(string, string)>)
      returns (updates: seq<(string, string)>)
      requires n < |sorted| && NoDuplicates(sorted) && sorted[n] in first && BasesRecorded(first, record, reverseRename)
      requires FreshNames(first, RoundNaming(rename, reverseRename)) && OneNameEach(RoundNaming(rename, reverseRename), sorted)
      requires HasCopied(first, record, sorted[..n], fixes, rename, reverseRename, disk, specBaseNames, importUpdates)
      modifies this
      ensures HasCopied(first, record, sorted[..n + 1], fixes, rename, reverseRename, disk, specBaseNames, updates)
    {
      ghost var before := disk;
      CopiesAreNew(first, RoundNaming(rename, reverseRename), sorted, n);
      RecordedStays(first, record, rename, reverseRename, sorted[..n]);
      var newSpec := CopySpec(sorted[n], fixes, rename, reverseRename, importUpdates);
      updates := importUpdates + [(sorted[n].name, newSpec.name)];
      CopyStep(first, FixesByBase(first, fixes, reverseRename), RoundNaming(rename, reverseRename), sorted, n, before, disk);
      UpdatesStep(RoundNaming(rename, reverseRename), sorted, n);
      RecordedStep(record, rename, reverseRename, sorted, n);
    }

    /** Copies the sorted specs one by one; every copy sees the renamings made before it. */
    method CopySorted(sorted: seq<Path>, fixes: map<string, Fix>, rename: string -> string, reverseRename: string -> string)
      requires NoDuplicates(sorted) && forall p :: p in sorted ==> p in disk
      requires FreshNames(disk, RoundNaming(rename, reverseRename)) && OneNameEach(RoundNaming(rename, reverseRename), sorted)
      requires BasesRecorded(disk, specBaseNames, reverseRename)
      modifies this
      ensures CopiedAll(old(disk), FixesByBase(old(disk), fixes, reverseRename), RoundNaming(rename, reverseRename), sorted, disk)
      ensures specBaseNames == RecordedAll(old(specBaseNames), rename, reverseRename, sorted)
    {
      var importUpdates := [];
      NothingCopied(disk, specBaseNames, sorted, fixes, rename, reverseRename);
      for n := 0 to |sorted|
        invariant HasCopied(old(disk), old(specBaseNames), sorted[..n], fixes, rename, reverseRename, disk, specBaseNames, importUpdates)
      {
        importUpdates := CopyNext(old(disk), old(specBaseNames), sorted, n, fixes, rename, reverseRename, importUpdates);
      }
      assert sorted[..|sorted|] == sorted;
    }
  }

  /** The disk, the record of base names and the import updates after the specs in `done` have been copied. */
  ghost predicate HasCopied(first: Disk, record: map<Path, string>, done: seq<Path>, fixes: map<string, Fix>,
                            rename: string -> string, reverseRename: string -> string,
                            disk: Disk, recorded: map<Path, string>, updates: seq<(string, string)>)
  {
    && CopiedAll(first, FixesByBase(first, fixes, reverseRename), RoundNaming(rename, reverseRename), done, disk)
    && recorded == RecordedAll(record, rename, reverseRename, done)
    && updates == UpdatesOf(RoundNaming(rename, reverseRename), done)
  }

  lemma NothingCopied(disk: Disk, record: map<Path, string>, sorted: seq<Path>, fixes: map<string, Fix>,
                      rename: string -> string, reverseRename: string -> string)
    ensures HasCopied(disk, record, sorted[..0], fixes, rename, reverseRename, disk, record, [])
  {
  }

  /** The base name of a spec goes on record for it and for its copy. */
  function Recorded(recorded: map<Path, string>, reverseRename: string -> string, spec: Path, newSpec: Path): map<Path, string> {
    recorded[spec := BaseIn(reverseRename, spec)][newSpec := BaseIn(reverseRename, spec)]
  }

  function RecordedAll(recorded: map<Path, string>, rename: string -> string, reverseRename: string -> string,
                       sorted: seq<Path>): map<Path, string>
  {
    if sorted == [] then recorded
    else
      var last := sorted[|sorted| - 1];
      Recorded(RecordedAll(recorded, rename, reverseRename, sorted[..|sorted| - 1]), reverseRename, last,
               NewPath(RoundNaming(rename, reverseRename), last))
  }

  lemma {:induction false} RecordedStays(disk: Disk, recorded: map<Path, string>, rename: string -> string,
                                         reverseRename: string -> string, sorted: seq<Path>)
    requires BasesRecorded(disk, recorded, reverseRename) && FreshNames(disk, RoundNaming(rename, reverseRename))
    ensures BasesRecorded(disk, RecordedAll(recorded, rename, reverseRename, sorted), reverseRename)
  {
    if sorted != [] {
      RecordedStays(disk, recorded, rename, reverseRename, sorted[..|sorted| - 1]);
      var last := sorted[|sorted| - 1];
      NewPathFresh(disk, RoundNaming(rename, reverseRename), last);
    }
  }

  lemma RecordedStep(recorded: map<Path, string>, rename: string -> string, reverseRename: string -> string,
                     sorted: seq<Path>, n: nat)
    requires n < |sorted|
    ensures RecordedAll(recorded, rename, reverseRename, sorted[..n + 1])
         == Recorded(RecordedAll(recorded, rename, reverseRename, sorted[..n]), reverseRename, sorted[n],
                     NewPath(RoundNaming(rename, reverseRename), sorted[n]))
  {
    assert sorted[..n + 1][..n] == sorted[..n];
  }

  lemma UpdatesStep(names: Naming, sorted: seq<Path>, n: nat)
    requires n < |sorted|
    ensures UpdatesOf(names, sorted[..n + 1]) == UpdatesOf(names, sorted[..n]) + [(sorted[n].name, NewPath(names, sorted[n]).name)]
  {
  }

  lemma NewPathFresh(disk: Disk, names: Naming, p: Path)
    requires FreshNames(disk, names)
    ensures NewPath(names, p) !in disk
  {
  }

  /** The copy made of the n-th spec is a new file, different from the copies made before. */
  ghost predicate CopyIsNew(disk: Disk, names: Naming, sorted: seq<Path>, n: nat)
    requires n < |sorted|
  {
    && NewPath(names, sorted[n]) !in disk
    && forall k :: 0 <= k < n ==> NewPath(names, sorted[k]) != NewPath(names, sorted[n])
  }

  lemma CopiesAreNew(disk: Disk, names: Naming, sorted: seq<Path>, n: nat)
    requires n < |sorted| && NoDuplicates(sorted) && FreshNames(disk, names) && OneNameEach(names, sorted)
    ensures CopyIsNew(disk, names, sorted, n)
  {
    NewPathFresh(disk, names, sorted[n]);
    forall k | 0 <= k < n
      ensures NewPath(names, sorted[k]) != NewPath(names, sorted[n])
    {
      assert sorted[k] in sorted && sorted[n] in sorted;
    }
  }

  lemma CopyStep(disk: Disk, fixes: map<Path, Fix>, names: Naming, sorted: seq<Path>, n: nat,
                 before: Disk, after: Disk)
    requires n < |sorted| && sorted[n] in disk && CopyIsNew(disk, names, sorted, n)
    requires CopiedAll(disk, fixes, names, sorted[..n], before)
    requires after == before[NewPath(names, sorted[n]) := Copied(disk, fixes, names, sorted[..n], sorted[n])]
    ensures CopiedAll(disk, fixes, names, sorted[..n + 1], after)
  {
    var done := sorted[..n + 1];
    forall p | p in after && p !in disk
      ensures IsNew(names, done, p)
    {
      NewFileStep(names, sorted, n, p);
    }
    forall k: nat | k < |done|
      ensures CopyMade(disk, fixes, names, done, after, k)
    {
      EarlierCopy(disk, fixes, names, sorted[..n], before, k);
      CopyMadeStep(disk, fixes, names, sorted, n, before, after, k);
    }
  }

  lemma EarlierCopy(disk: Disk, fixes: map<Path, Fix>, names: Naming, done: seq<Path>, before: Disk, k: nat)
    requires CopiedAll(disk, fixes, names, done, before)
    ensures k < |done| ==> CopyMade(disk, fixes, names, done, before, k)
  {
  }

  lemma CopyMadeStep(disk: Disk, fixes: map<Path, Fix>, names: Naming, sorted: seq<Path>, n: nat,
                     before: Disk, after: Disk, k: nat)
    requires k <= n < |sorted| && sorted[n] in disk && CopyIsNew(disk, names, sorted, n)
    requires k < n ==> CopyMade(disk, fixes, names, sorted[..n], before, k)
    requires after == before[NewPath(names, sorted[n]) := Copied(disk, fixes, names, sorted[..n], sorted[n])]
    ensures CopyMade(disk, fixes, names, sorted[..n + 1], after, k)
  {
    assert sorted[..n + 1][..k] == sorted[..n][..k];
    assert k < n ==> sorted[..n][k] == sorted[k];
    assert sorted[..n + 1][k] == sorted[k];
    assert sorted[..n][..n] == sorted[..n];
  }

  lemma NewFileStep(names: Naming, sorted: seq<Path>, n: nat, p: Path)
    requires n < |sorted|
    ensures IsNew(names, sorted[..n], p) || p == NewPath(names, sorted[n]) ==> IsNew(names, sorted[..n + 1], p)
  {
    if IsNew(names, sorted[..n], p) {
      var k :| 0 <= k < n && p == NewPath(names, sorted[..n][k]);
      assert sorted[..n + 1][k] == sorted[..n][k];
    } else if p == NewPath(names, sorted[n]) {
      assert sorted[..n + 1][n] == sorted[n];
    }
  }

  // ----- What the copies import -----

  function RenamedFile(names: Naming, done: seq<Path>, file: string): string {
    if done == [] then file
    else
      var last := done[|done| - 1];
      if last.name == file then NewPath(names, last).name else RenamedFile(names, done[..|done| - 1], file)
  }

  /** The last listed spec of the given name decides, if there is one. */
  lemma {:induction false} RenamedBy(names: Naming, done: seq<Path>, file: string) returns (found: bool, j: nat)
    ensures found ==> j < |done| && done[j].name == file && RenamedFile(names, done, file) == names(done[j])
    ensures !found ==> RenamedFile(names, done, file) == file && forall p :: p in done ==> p.name != file
  {
    found, j := false, 0;
    if done != [] {
      var last := |done| - 1;
      if done[last].name == file {
        found, j := true, last;
      } else {
        found, j := RenamedBy(names, done[..last], file);
        assert done == done[..last] + [done[last]];
      }
    }
  }

  ghost predicate FreshFor(names: Naming, done: seq<Path>) {
    && (forall j, k :: 0 <= j < k < |done| ==> done[j].name != done[k].name)
    && (forall j, p :: 0 <= j < |done| ==> done[j].name != names(p))
  }

  lemma RewriteLast(file: SpecFile, names: Naming, done: seq<Path>)
    requires done != []
    ensures var last := |done| - 1;
      Rewrite(file, UpdatesOf(names, done))
      == RedirectAll(Rewrite(file, UpdatesOf(names, done[..last])), done[last].name, NewPath(names, done[last]).name)
  {
    var last := |done| - 1;
    assert UpdatesOf(names, done)[..last] == UpdatesOf(names, done[..last]);
  }

  lemma RenamedLast(names: Naming, done: seq<Path>, file: string)
    requires done != [] && FreshFor(names, done)
    ensures var last := |done| - 1;
      var before := RenamedFile(names, done[..last], file);
      RenamedFile(names, done, file) == if before == done[last].name then NewPath(names, done[last]).name else before
  {
    var _, _ := RenamedBy(names, done[..|done| - 1], file);
  }

  /** The updates, applied one after the other, names each imported file at most once. */
  lemma {:induction false} RewriteAt(file: SpecFile, names: Naming, done: seq<Path>, i: nat)
    requires FreshFor(names, done) && i < |file|
    ensures |Rewrite(file, UpdatesOf(names, done))| == |file|
    ensures Rewrite(file, UpdatesOf(names, done))[i] ==
      if file[i].Import? then file[i].(file := RenamedFile(names, done, file[i].file)) else file[i]
    decreases |done|
  {
    if done != [] {
      RewriteAt(file, names, done[..|done| - 1], i);
      RewriteLast(file, names, done);
      if file[i].Import? {
        RenamedLast(names, done, file[i].file);
      }
    }
  }

  function NewOrSame(names: Naming, sorted: seq<Path>, p: Path): Path {
    if p in sorted then NewPath(names, p) else p
  }

  function NewOrSameAll(names: Naming, sorted: seq<Path>, ps: seq<Path>): seq<Path> {
    seq(|ps|, i requires 0 <= i < |ps| => NewOrSame(names, sorted, ps[i]))
  }

  /** The setting after copying: round names are fresh, and `disk'` holds the copies. */
  ghost predicate RoundDone(disk: Disk, fixes: map<Path, Fix>, names: Naming, sorted: seq<Path>, disk': Disk) {
    && FreshNames(disk, names) && UniqueNames(disk) && OneNameEach(names, sorted)
    && NoDuplicates(sorted) && (forall p :: p in sorted ==> p in disk)
    && CopiedAll(disk, fixes, names, sorted, disk')
  }

  lemma SortedIsFresh(disk: Disk, names: Naming, done: seq<Path>)
    requires FreshNames(disk, names) && UniqueNames(disk) && NoDuplicates(done) && forall p :: p in done ==> p in disk
    ensures FreshFor(names, done)
  {
  }

  /** A path on the new disk is an old file or the copy of a sorted one. */
  lemma OnNewDisk(disk: Disk, fixes: map<Path, Fix>, names: Naming, sorted: seq<Path>, disk': Disk, p: Path)
    requires RoundDone(disk, fixes, names, sorted, disk')
    ensures p in disk' <==> p in disk || IsNew(names, sorted, p)
  {
    if IsNew(names, sorted, p) {
      var k :| 0 <= k < |sorted| && p == NewPath(names, sorted[k]);
      assert CopyMade(disk, fixes, names, sorted, disk', k);
    }
  }

  /** An import of an old file exists on the new disk exactly if it did on the old one. */
  lemma OldImportsStay(disk: Disk, fixes: map<Path, Fix>, names: Naming, sorted: seq<Path>, disk': Disk,
                       p: Path, i: nat)
    requires RoundDone(disk, fixes, names, sorted, disk') && p in disk && i < |disk[p]| && disk[p][i].Import?
    ensures Target(p.dir, disk[p][i]) in disk' <==> Target(p.dir, disk[p][i]) in disk
  {
    OnNewDisk(disk, fixes, names, sorted, disk', Target(p.dir, disk[p][i]));
  }

  /** A redirected import resolves to the copy of what it resolved to; a dangling one keeps dangling. */
  lemma RedirectedImport(disk: Disk, fixes: map<Path, Fix>, names: Naming, sorted: seq<Path>, disk': Disk,
                         p: Path, i: nat, k: nat)
    requires RoundDone(disk, fixes, names, sorted, disk') && p in disk && i < |disk[p]| && disk[p][i].Import?
    requires k <= |sorted| && (Target(p.dir, disk[p][i]) in sorted ==> Target(p.dir, disk[p][i]) in sorted[..k])
    ensures var item, item' := disk[p][i], disk[p][i].(file := RenamedFile(names, sorted[..k], disk[p][i].file));
      && (Target(p.dir, item') in disk' <==> Target(p.dir, item) in disk)
      && (Target(p.dir, item) in disk ==> Target(p.dir, item') == NewOrSame(names, sorted, Target(p.dir, item)))
  {
    var found, j := RenamedBy(names, sorted[..k], disk[p][i].file);
    if found {
      MatchedImport(disk, fixes, names, sorted, disk', Target(p.dir, disk[p][i]), j);
    } else {
      OldImportsStay(disk, fixes, names, sorted, disk', p, i);
    }
  }

  /** An import whose file name is that of a copied spec, with the name replaced by the copy's. */
  lemma MatchedImport(disk: Disk, fixes: map<Path, Fix>, names: Naming, sorted: seq<Path>, disk': Disk,
                      t: Path, j: nat)
    requires RoundDone(disk, fixes, names, sorted, disk') && j < |sorted| && sorted[j].name == t.name
    ensures var t' := Path(t.dir, NewPath(names, sorted[j]).name);
      && (t' in disk' <==> t in disk)
      && (t in disk ==> t' == NewOrSame(names, sorted, t))
  {
    var t' := Path(t.dir, NewPath(names, sorted[j]).name);
    OnNewDisk(disk, fixes, names, sorted, disk', t');
    assert sorted[j] in disk;
    if t in disk {
      assert t == sorted[j];
      assert IsNew(names, sorted, t');
    }
    if IsNew(names, sorted, t') {
      var m :| 0 <= m < |sorted| && t' == NewPath(names, sorted[m]);
      assert sorted[m] == sorted[j];
    }
  }
}
