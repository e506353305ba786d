/** Spec files on disk: resolved paths, import statements and the text between them. */
module SpecFiles {

  /** A resolved path; `dir` holds the components of an absolute directory. */
  datatype Path = Path(dir: seq<string>, name: string)

  /** One import statement, split at the last slash of its target, or text that imports nothing. */
  datatype Item =
    | Import(absolute: bool, rel: seq<string>, file: string)
    | Text(text: string)

  type SpecFile = seq<Item>

  type Disk = map<Path, SpecFile>

  function ResolveDir(base: seq<string>, rel: seq<string>): seq<string>
    decreases |rel|
  {
    if rel == [] then base
    else if rel[0] == ".." then ResolveDir(if base == [] then [] else base[..|base| - 1], rel[1..])
    else if rel[0] == "." || rel[0] == "" then ResolveDir(base, rel[1..])
    else ResolveDir(base + [rel[0]], rel[1..])
  }

  function Target(dir: seq<string>, item: Item): Path
    requires item.Import?
  {
    Path(ResolveDir(if item.absolute then [] else dir, item.rel), item.file)
  }

  /** The resolved targets of the imports that exist on disk, in source order. */
  function Resolved(disk: Disk, dir: seq<string>, file: SpecFile): seq<Path> {
    if file == [] then []
    else
      var last := file[|file| - 1];
      Resolved(disk, dir, file[..|file| - 1]) +
      if last.Import? && Target(dir, last) in disk then [Target(dir, last)] else []
  }

  function ImportsOf(disk: Disk, p: Path): seq<Path>
    requires p in disk
  {
    Resolved(disk, p.dir, disk[p])
  }

  function ImportGraph(disk: Disk): map<Path, seq<Path>> {
    map p | p in disk :: ImportsOf(disk, p)
  }

  lemma {:induction false} ResolvedOnDisk(disk: Disk, dir: seq<string>, file: SpecFile, q: Path)
    requires q in Resolved(disk, dir, file)
    ensures q in disk && exists i :: 0 <= i < |file| && file[i].Import? && Target(dir, file[i]) == q
  {
    var last := |file| - 1;
    if q in Resolved(disk, dir, file[..last]) {
      ResolvedOnDisk(disk, dir, file[..last], q);
      var i :| 0 <= i < last && file[..last][i].Import? && Target(dir, file[..last][i]) == q;
      assert file[i].Import? && Target(dir, file[i]) == q;
    } else {
      assert file[last].Import? && Target(dir, file[last]) == q;
    }
  }

  lemma {:induction false} ResolvedComplete(disk: Disk, dir: seq<string>, file: SpecFile, i: nat)
    requires i < |file| && file[i].Import? && Target(dir, file[i]) in disk
    ensures Target(dir, file[i]) in Resolved(disk, dir, file)
  {
    if i < |file| - 1 {
      ResolvedComplete(disk, dir, file[..|file| - 1], i);
    }
  }

  // ----- What resolving does -----

  lemma UpGoesToParent(base: seq<string>, d: string)
    ensures ResolveDir(base + [d], [".."]) == base
  {
    assert (base + [d])[..|base|] == base && [".."][1..] == [];
  }

  lemma UpStaysAtRoot()
    ensures ResolveDir([], [".."]) == []
  {
    assert [".."][1..] == [];
  }

  lemma HereStays(base: seq<string>)
    ensures ResolveDir(base, []) == ResolveDir(base, ["."]) == ResolveDir(base, [""]) == base
  {
    assert ["."][1..] == [] && [""][1..] == [];
  }

  predicate IsDirName(name: string) {
    name != "" && name != "." && name != ".."
  }

  lemma NameGoesDown(base: seq<string>, name: string)
    requires IsDirName(name)
    ensures ResolveDir(base, [name]) == base + [name]
  {
    assert [name][1..] == [];
  }

  /** Resolving step by step. */
  lemma {:induction false} ResolvesInTurn(base: seq<string>, a: seq<string>, b: seq<string>)
    ensures ResolveDir(base, a + b) == ResolveDir(ResolveDir(base, a), b)
    decreases |a|
  {
    if a == [] {
      assert a + b == b;
    } else {
      assert (a + b)[1..] == a[1..] + b;
      var next := if a[0] == ".." then (if base == [] then [] else base[..|base| - 1])
                  else if a[0] == "." || a[0] == "" then base else base + [a[0]];
      ResolvesInTurn(next, a[1..], b);
    }
  }

  function Ups(n: nat): seq<string> {
    if n == 0 then [] else [".."] + Ups(n - 1)
  }

  lemma {:induction false} UpsLeave(base: seq<string>, down: seq<string>)
    ensures ResolveDir(base + down, Ups(|down|)) == base
    decreases |down|
  {
    if down == [] {
      assert base + down == base;
    } else {
      var last := |down| - 1;
      assert base + down == base + down[..last] + [down[last]];
      UpGoesToParent(base + down[..last], down[last]);
      ResolvesInTurn(base + down, [".."], Ups(last));
      UpsLeave(base, down[..last]);
    }
  }

  lemma {:induction false} NamesEnter(base: seq<string>, names: seq<string>)
    requires forall i :: 0 <= i < |names| ==> IsDirName(names[i])
    ensures ResolveDir(base, names) == base + names
    decreases |names|
  {
    if names == [] {
      assert base + names == base;
    } else {
      NamesEnter(base + [names[0]], names[1..]);
      assert base + names == base + [names[0]] + names[1..];
    }
  }

  /** As many steps up as lead to a directory, then down by names, lead below that directory. */
  lemma UpsAndDowns(base: seq<string>, down: seq<string>, names: seq<string>)
    requires forall i :: 0 <= i < |names| ==> IsDirName(names[i])
    ensures ResolveDir(base + down, Ups(|down|) + names) == base + names
  {
    ResolvesInTurn(base + down, Ups(|down|), names);
    UpsLeave(base, down);
    NamesEnter(base, names);
  }

  /** A relative import by steps up and down: nested, plain or in the same directory. */
  predicate ImportsAcross(file: SpecFile, base: seq<string>, down: seq<string>, names: seq<string>, name: string) {
    (forall i :: 0 <= i < |names| ==> IsDirName(names[i])) && file == [Import(false, Ups(|down|) + names, name)]
  }

  predicate ImportsFromRoot(file: SpecFile, names: seq<string>, name: string) {
    (forall i :: 0 <= i < |names| ==> IsDirName(names[i])) && file == [Import(true, names, name)]
  }

  lemma OneImport(disk: Disk, dir: seq<string>, item: Item)
    requires item.Import?
    ensures Resolved(disk, dir, [item]) == if Target(dir, item) in disk then [Target(dir, item)] else []
  {
    assert [item][..0] == [];
    assert Resolved(disk, dir, [item]) == [] + (if Target(dir, item) in disk then [Target(dir, item)] else []);
  }

  lemma AcrossIsFound(disk: Disk, file: SpecFile, base: seq<string>, down: seq<string>, names: seq<string>, name: string)
    requires ImportsAcross(file, base, down, names, name)
    ensures Resolved(disk, base + down, file) == if Path(base + names, name) in disk then [Path(base + names, name)] else []
  {
    UpsAndDowns(base, down, names);
    OneImport(disk, base + down, file[0]);
    assert file == [file[0]];
  }

  lemma FromRootIsFound(disk: Disk, dir: seq<string>, file: SpecFile, names: seq<string>, name: string)
    requires ImportsFromRoot(file, names, name)
    ensures Resolved(disk, dir, file) == if Path(names, name) in disk then [Path(names, name)] else []
  {
    NamesEnter([], names);
    assert [] + names == names;
    OneImport(disk, dir, file[0]);
    assert file == [file[0]];
  }

  method ParseDirectImports(disk: Disk, path: Path) returns (imports: seq<Path>)
    requires path in disk
    ensures imports == ImportsOf(disk, path)
    ensures forall base, down, names, name {:trigger ImportsAcross(disk[path], base, down, names, name)} ::
      path.dir == base + down && ImportsAcross(disk[path], base, down, names, name) ==>
        imports == if Path(base + names, name) in disk then [Path(base + names, name)] else []
    ensures forall names, name {:trigger ImportsFromRoot(disk[path], names, name)} :: ImportsFromRoot(disk[path], names, name) ==>
      imports == if Path(names, name) in disk then [Path(names, name)] else []
  {
    imports := [];
    var file := disk[path];
    for i := 0 to |file|
      invariant imports == Resolved(disk, path.dir, file[..i])
    {
      assert file[..i + 1][..i] == file[..i];
      if file[i].Import? {
        var resolved := Target(path.dir, file[i]);
        if resolved in disk {
          imports := imports + [resolved];
        }
      }
    }
    assert file[..|file|] == file;
    forall base, down, names, name | path.dir == base + down && ImportsAcross(file, base, down, names, name)
      ensures imports == if Path(base + names, name) in disk then [Path(base + names, name)] else []
    {
      AcrossIsFound(disk, file, base, down, names, name);
    }
    forall names, name | ImportsFromRoot(file, names, name)
      ensures imports == if Path(names, name) in disk then [Path(names, name)] else []
    {
      FromRootIsFound(disk, path.dir, file, names, name);
    }
  }
}
