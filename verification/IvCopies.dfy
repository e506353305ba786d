/** The `iv_` copies of a summaries spec and of everything it imports. */
module IvCopies {
  import opened SpecFiles
  import opened Graphs
  import opened ImportClosure

  const IV_PREFIX := "iv_"

  function IvPath(p: Path): Path {
    Path(p.dir, IV_PREFIX + p.name)
  }

  function PrefixImport(prefix: string, item: Item, listed: Item -> bool): Item {
    if item.Import? && listed(item) then item.(file := prefix + item.file) else item
  }

  function PrefixImports(prefix: string, file: SpecFile, listed: Item -> bool): SpecFile {
    seq(|file|, i requires 0 <= i < |file| => PrefixImport(prefix, file[i], listed))
  }

  /** The imports that resolve to a copied spec. */
  function Copied(dir: seq<string>, mapped: seq<Path>): Item -> bool {
    (item: Item) => item.Import? && Target(dir, item) in mapped
  }

  function UpdateImport(item: Item, dir: seq<string>, mapped: seq<Path>): Item {
    PrefixImport(IV_PREFIX, item, Copied(dir, mapped))
  }

  function UpdateImports(file: SpecFile, dir: seq<string>, mapped: seq<Path>): SpecFile {
    PrefixImports(IV_PREFIX, file, Copied(dir, mapped))
  }

  function OnlyImports(file: SpecFile): SpecFile {
    if file == [] then []
    else
      var last := file[|file| - 1];
      OnlyImports(file[..|file| - 1]) + if last.Import? then [last] else []
  }

  /** Commenting out NONDET entries leaves the import statements as they are. */
  ghost predicate KeepsImports(disable: SpecFile -> SpecFile) {
    forall file :: OnlyImports(disable(file)) == OnlyImports(file)
  }

  function IvContent(disk: Disk, p: Path, mapped: seq<Path>, disable: SpecFile -> SpecFile): SpecFile
    requires p in disk
  {
    disable(UpdateImports(disk[p], p.dir, mapped))
  }

  ghost predicate IsIvOf(specs: seq<Path>, q: Path) {
    exists p :: p in specs && q == IvPath(p)
  }

  predicate IvPrefixed(name: string) {
    IV_PREFIX <= name
  }

  /** No spec in the list has, or imports, a name that already starts with the prefix. */
  ghost predicate UnprefixedNames(disk: Disk, specs: seq<Path>) {
    && (forall p :: p in specs ==> p in disk && !IvPrefixed(p.name))
    && (forall p, i :: p in specs && 0 <= i < |disk[p]| && disk[p][i].Import? ==> !IvPrefixed(disk[p][i].file))
  }

  ghost predicate SpecCopied(disk: Disk, mapped: seq<Path>, disable: SpecFile -> SpecFile, disk': Disk, p: Path) {
    p in disk && IvPath(p) in disk' && disk'[IvPath(p)] == IvContent(disk, p, mapped, disable)
  }

  /** The disk on which the specs in `done` have been copied. */
  ghost predicate CopiedSpecs(disk: Disk, done: seq<Path>, mapped: seq<Path>, disable: SpecFile -> SpecFile, disk': Disk) {
    && (forall p :: p in disk && !IsIvOf(done, p) ==> p in disk' && disk'[p] == disk[p])
    && (forall q :: q in disk' ==> q in disk || IsIvOf(done, q))
    && (forall p {:trigger SpecCopied(disk, mapped, disable, disk', p)} :: p in done ==> SpecCopied(disk, mapped, disable, disk', p))
  }

  lemma IvInjective(p: Path, q: Path)
    requires IvPath(p) == IvPath(q)
    ensures p == q
  {
    assert IvPath(p).name[3..] == p.name && IvPath(q).name[3..] == q.name;
  }

  lemma IvOfNext(specs: seq<Path>, n: nat, q: Path)
    requires n < |specs|
    ensures IsIvOf(specs[..n + 1], q) <==> IsIvOf(specs[..n], q) || q == IvPath(specs[n])
  {
    var done := specs[..n + 1];
    assert done == specs[..n] + [specs[n]];
    assert forall p :: p in done <==> p in specs[..n] || p == specs[n];
  }

  lemma OriginalIsNoCopy(disk: Disk, specs: seq<Path>, done: seq<Path>, p: Path)
    requires UnprefixedNames(disk, specs) && p in specs
    ensures !IsIvOf(done, p)
  {
    forall q | q in done
      ensures IvPath(q) != p
    {
      assert IV_PREFIX <= IvPath(q).name;
    }
  }

  lemma CopyKeepsFiles(disk: Disk, specs: seq<Path>, n: nat, done: seq<Path>, mapped: seq<Path>,
                       disable: SpecFile -> SpecFile, before: Disk, content: SpecFile)
    requires n < |specs| && done == specs[..n + 1] && CopiedSpecs(disk, specs[..n], mapped, disable, before)
    ensures var after := before[IvPath(specs[n]) := content];
      && (forall p :: p in disk && !IsIvOf(done, p) ==> p in after && after[p] == disk[p])
      && (forall q :: q in after ==> q in disk || IsIvOf(done, q))
  {
    var after := before[IvPath(specs[n]) := content];
    forall p | p in disk && !IsIvOf(done, p)
      ensures p in after && after[p] == disk[p]
    {
      IvOfNext(specs, n, p);
    }
    forall q | q in after
      ensures q in disk || IsIvOf(done, q)
    {
      IvOfNext(specs, n, q);
    }
  }

  lemma CopyOne(disk: Disk, specs: seq<Path>, n: nat, mapped: seq<Path>, disable: SpecFile -> SpecFile, before: Disk)
    requires n < |specs| && UnprefixedNames(disk, specs)
    requires CopiedSpecs(disk, specs[..n], mapped, disable, before)
    ensures specs[n] in before && before[specs[n]] == disk[specs[n]]
    ensures CopiedSpecs(disk, specs[..n + 1], mapped, disable,
                        before[IvPath(specs[n]) := disable(UpdateImports(before[specs[n]], specs[n].dir, mapped))])
  {
    OriginalIsNoCopy(disk, specs, specs[..n], specs[n]);
    var content := disable(UpdateImports(before[specs[n]], specs[n].dir, mapped));
    var done := specs[..n + 1];
    CopyKeepsFiles(disk, specs, n, done, mapped, disable, before, content);
    forall p | p in done
      ensures SpecCopied(disk, mapped, disable, before[IvPath(specs[n]) := content], p)
    {
      assert p in specs[..n] || p == specs[n];
      CopySurvives(disk, specs[n], mapped, disable, before, p);
    }
  }

  lemma CopySurvives(disk: Disk, spec: Path, mapped: seq<Path>, disable: SpecFile -> SpecFile, before: Disk, p: Path)
    requires spec in disk && spec in before && before[spec] == disk[spec]
    requires p != spec ==> SpecCopied(disk, mapped, disable, before, p)
    ensures SpecCopied(disk, mapped, disable,
                       before[IvPath(spec) := disable(UpdateImports(before[spec], spec.dir, mapped))], p)
  {
    if IvPath(p) == IvPath(spec) {
      IvInjective(p, spec);
    }
  }

  method CreateIvSummaryCopies(disk: Disk, summarySpec: Path, disable: SpecFile -> SpecFile)
    returns (disk': Disk, ivRoot: Path, ghost specs: seq<Path>)
    requires summarySpec in disk && KeepsImports(disable)
    requires forall specs :: ListsClosure(disk, summarySpec, specs) ==> UnprefixedNames(disk, specs)
    ensures ListsClosure(disk, summarySpec, specs)
    ensures ivRoot == IvPath(summarySpec)
    ensures CopiedSpecs(disk, specs, specs, disable, disk')
    ensures forall p :: p in specs ==> Get(ImportGraph(disk'), IvPath(p)) == IvPaths(Get(ImportGraph(disk), p))
    ensures forall q :: Reaches(ImportGraph(disk'), ivRoot, q) <==> IsIvOf(specs, q)
  {
    var imports := ParseImports(disk, summarySpec);
    var all := [summarySpec] + imports;
    ReachesSelf(ImportGraph(disk), summarySpec);
    assert forall p :: p in all <==> p == summarySpec || p in imports;
    assert ListsClosure(disk, summarySpec, all);
    specs := all;
    var mapped := all;
    disk' := disk;
    for n := 0 to |all|
      invariant CopiedSpecs(disk, all[..n], mapped, disable, disk')
    {
      CopyOne(disk, all, n, mapped, disable, disk');
      disk' := disk'[IvPath(all[n]) := disable(UpdateImports(disk'[all[n]], all[n].dir, mapped))];
    }
    assert all[..|all|] == all;
    ivRoot := IvPath(summarySpec);
    CopiesAreIsomorphic(disk, summarySpec, specs, disable, disk');
    CopiesAreClosed(disk, summarySpec, specs, disk');
  }

  // ----- The copies' imports -----

  ghost predicate ListsClosure(disk: Disk, root: Path, specs: seq<Path>) {
    forall p :: p in specs <==> Reaches(ImportGraph(disk), root, p)
  }

  function IvPaths(ps: seq<Path>): seq<Path> {
    seq(|ps|, i requires 0 <= i < |ps| => IvPath(ps[i]))
  }

  lemma {:induction false} ResolvedOnlyImports(disk: Disk, dir: seq<string>, file: SpecFile)
    ensures Resolved(disk, dir, file) == Resolved(disk, dir, OnlyImports(file))
  {
    if file != [] {
      var last := |file| - 1;
      ResolvedOnlyImports(disk, dir, file[..last]);
      var rest := OnlyImports(file[..last]);
      if file[last].Import? {
        assert OnlyImports(file)[..|rest|] == rest;
      } else {
        assert OnlyImports(file) == rest + [] == rest;
      }
    }
  }

  /** An import of a listed spec resolves to a listed spec or to nothing, before and after. */
  lemma UpdatedImport(disk: Disk, root: Path, specs: seq<Path>, disable: SpecFile -> SpecFile, disk': Disk, p: Path, i: nat)
    requires ListsClosure(disk, root, specs) && UnprefixedNames(disk, specs)
    requires CopiedSpecs(disk, specs, specs, disable, disk')
    requires p in specs && i < |disk[p]| && disk[p][i].Import?
    ensures var t := Target(p.dir, disk[p][i]);
      var t' := Target(p.dir, UpdateImport(disk[p][i], p.dir, specs));
      && (t in disk <==> t' in disk')
      && (t in disk ==> t' == IvPath(t))
  {
    var t := Target(p.dir, disk[p][i]);
    if t in disk {
      ResolvedComplete(disk, p.dir, disk[p], i);
      ReachesThenEdge(ImportGraph(disk), root, p, t);
      assert SpecCopied(disk, specs, disable, disk', t);
    } else {
      forall q | q in specs
        ensures t != IvPath(q)
      {
        assert IV_PREFIX <= IvPath(q).name;
      }
    }
  }

  /** What one item imports, if it does. */
  function ResolvedItem(disk: Disk, dir: seq<string>, item: Item): seq<Path> {
    if item.Import? && Target(dir, item) in disk then [Target(dir, item)] else []
  }

  lemma ResolvedLast(disk: Disk, dir: seq<string>, file: SpecFile)
    requires file != []
    ensures var last := |file| - 1;
      Resolved(disk, dir, file) == Resolved(disk, dir, file[..last]) + ResolvedItem(disk, dir, file[last])
  {
  }

  /** Redirecting keeps whether an import resolves, and it then resolves to the copy. */
  predicate ImportCopied(disk: Disk, dir: seq<string>, item: Item, mapped: seq<Path>, disk': Disk) {
    item.Import? ==>
      var t, t' := Target(dir, item), Target(dir, UpdateImport(item, dir, mapped));
      (t in disk <==> t' in disk') && (t in disk ==> t' == IvPath(t))
  }

  lemma IvPathsConcat(a: seq<Path>, b: seq<Path>)
    ensures IvPaths(a + b) == IvPaths(a) + IvPaths(b)
  {
  }

  lemma UpdatedLast(file: SpecFile, dir: seq<string>, mapped: seq<Path>)
    requires file != []
    ensures var last, updated := |file| - 1, UpdateImports(file, dir, mapped);
      && |updated| == |file| && updated[..last] == UpdateImports(file[..last], dir, mapped)
      && updated[last] == UpdateImport(file[last], dir, mapped)
  {
  }

  lemma ResolvedItemCopied(disk: Disk, dir: seq<string>, item: Item, mapped: seq<Path>, disk': Disk)
    requires ImportCopied(disk, dir, item, mapped, disk')
    ensures ResolvedItem(disk', dir, UpdateImport(item, dir, mapped)) == IvPaths(ResolvedItem(disk, dir, item))
  {
  }

  lemma ResolvedCopy(disk: Disk, dir: seq<string>, file: SpecFile, mapped: seq<Path>, disk': Disk)
    requires file != [] && ImportCopied(disk, dir, file[|file| - 1], mapped, disk')
    ensures var last := |file| - 1;
      && Resolved(disk, dir, file) == Resolved(disk, dir, file[..last]) + ResolvedItem(disk, dir, file[last])
      && Resolved(disk', dir, UpdateImports(file, dir, mapped))
           == Resolved(disk', dir, UpdateImports(file[..last], dir, mapped)) + IvPaths(ResolvedItem(disk, dir, file[last]))
  {
    UpdatedLast(file, dir, mapped);
    ResolvedLast(disk, dir, file);
    ResolvedLast(disk', dir, UpdateImports(file, dir, mapped));
    ResolvedItemCopied(disk, dir, file[|file| - 1], mapped, disk');
  }

  lemma {:induction false} ResolvedCopies(disk: Disk, dir: seq<string>, file: SpecFile, mapped: seq<Path>, disk': Disk)
    requires forall i :: 0 <= i < |file| ==> ImportCopied(disk, dir, file[i], mapped, disk')
    ensures Resolved(disk', dir, UpdateImports(file, dir, mapped)) == IvPaths(Resolved(disk, dir, file))
  {
    if file != [] {
      var last := |file| - 1;
      ResolvedCopies(disk, dir, file[..last], mapped, disk');
      ResolvedCopy(disk, dir, file, mapped, disk');
      IvPathsConcat(Resolved(disk, dir, file[..last]), ResolvedItem(disk, dir, file[last]));
    }
  }

  /** The copies import each other exactly as the originals do. */
  lemma CopiesAreIsomorphic(disk: Disk, root: Path, specs: seq<Path>, disable: SpecFile -> SpecFile, disk': Disk)
    requires ListsClosure(disk, root, specs) && UnprefixedNames(disk, specs) && KeepsImports(disable)
    requires CopiedSpecs(disk, specs, specs, disable, disk')
    ensures forall p :: p in specs ==> Get(ImportGraph(disk'), IvPath(p)) == IvPaths(Get(ImportGraph(disk), p))
  {
    var mapped := specs;
    forall p | p in specs
      ensures Get(ImportGraph(disk'), IvPath(p)) == IvPaths(Get(ImportGraph(disk), p))
    {
      assert SpecCopied(disk, specs, disable, disk', p);
      var updated := UpdateImports(disk[p], p.dir, mapped);
      ResolvedOnlyImports(disk', p.dir, updated);
      ResolvedOnlyImports(disk', p.dir, disable(updated));
      forall i | 0 <= i < |disk[p]|
        ensures ImportCopied(disk, p.dir, disk[p][i], mapped, disk')
      {
        if disk[p][i].Import? {
          UpdatedImport(disk, root, specs, disable, disk', p, i);
        }
      }
      ResolvedCopies(disk, p.dir, disk[p], mapped, disk');
    }
  }

  lemma {:induction false} CopyWalk(g: Graph, g': Graph, specs: seq<Path>, p: seq<Path>, root: Path)
    requires forall q :: q in specs <==> Reaches(g, root, q)
    requires forall q :: q in specs ==> Get(g', IvPath(q)) == IvPaths(Get(g, q))
    requires IsWalk(g', p) && p[0] == IvPath(root)
    ensures IsIvOf(specs, p[|p| - 1])
    decreases |p|
  {
    var last := |p| - 1;
    if last == 0 {
      ReachesSelf(g, root);
      assert root in specs;
    } else {
      CopyWalk(g, g', specs, p[..last], root);
      var q :| q in specs && p[last - 1] == IvPath(q);
      assert Edge(g', p[last - 1], p[last - 1 + 1]);
      var i :| 0 <= i < |Get(g, q)| && IvPath(Get(g, q)[i]) == p[last];
      ReachesThenEdge(g, root, q, Get(g, q)[i]);
    }
  }

  /** Following imports from the copied root meets exactly the copies, never an original. */
  lemma CopiesAreClosed(disk: Disk, root: Path, specs: seq<Path>, disk': Disk)
    requires ListsClosure(disk, root, specs)
    requires forall p :: p in specs ==> Get(ImportGraph(disk'), IvPath(p)) == IvPaths(Get(ImportGraph(disk), p))
    ensures forall q :: Reaches(ImportGraph(disk'), IvPath(root), q) <==> IsIvOf(specs, q)
  {
    var g, g' := ImportGraph(disk), ImportGraph(disk');
    forall q | Reaches(g', IvPath(root), q)
      ensures IsIvOf(specs, q)
    {
      var p :| WalkBetween(g', p, IvPath(root), q);
      CopyWalk(g, g', specs, p, root);
    }
    forall q | IsIvOf(specs, q)
      ensures Reaches(g', IvPath(root), q)
    {
      var s :| s in specs && q == IvPath(s);
      var p :| WalkBetween(g, p, root, s);
      var p' := IvPaths(p);
      forall i | 0 <= i < |p'| - 1
        ensures Edge(g', p'[i], p'[i + 1])
      {
        WalkPrefix(g, p, i);
        assert Edge(g, p[i], p[i + 1]);
        var j :| 0 <= j < |Get(g, p[i])| && Get(g, p[i])[j] == p[i + 1];
        assert Get(g', p'[i])[j] == p'[i + 1];
      }
      assert WalkBetween(g', p', IvPath(root), q);
    }
  }
}
