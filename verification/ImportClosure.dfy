/** The transitive closure of a spec's imports, by breadth-first search. */
module ImportClosure {
  import opened SpecFiles
  import opened Graphs

  method EnqueueNew(queue: seq<Path>, imports: seq<Path>, visited: set<Path>) returns (queue': seq<Path>)
    ensures forall p :: p in queue ==> p in queue'
    ensures forall p :: p in queue' ==> p in queue || p in imports
    ensures forall p :: p in imports ==> p in visited || p in queue'
  {
    queue' := queue;
    for i := 0 to |imports|
      invariant forall p :: p in queue ==> p in queue'
      invariant forall p :: p in queue' ==> p in queue || p in imports
      invariant forall j :: 0 <= j < i ==> imports[j] in visited || imports[j] in queue'
    {
      if imports[i] !in visited {
        queue' := queue' + [imports[i]];
      }
    }
  }

  lemma ImportsAreBelow(disk: Disk, root: Path, v: Path)
    requires v in disk && Reaches(ImportGraph(disk), root, v)
    ensures ImportsOf(disk, v) == Get(ImportGraph(disk), v)
    ensures forall w :: w in ImportsOf(disk, v) ==> Reaches(ImportGraph(disk), root, w) && w in disk
  {
    forall w | w in ImportsOf(disk, v)
      ensures Reaches(ImportGraph(disk), root, w) && w in disk
    {
      ResolvedOnDisk(disk, v.dir, disk[v], w);
      ReachesThenEdge(ImportGraph(disk), root, v, w);
    }
  }

  /** The specs that `spec` imports directly or indirectly, each once and without `spec` itself. */
  method ParseImports(disk: Disk, spec: Path) returns (allImports: seq<Path>)
    requires spec in disk
    ensures NoDuplicates(allImports)
    ensures forall p :: p in allImports <==> p != spec && Reaches(ImportGraph(disk), spec, p)
    ensures forall p :: p in allImports ==> p in disk
  {
    ghost var g := ImportGraph(disk);
    allImports := [];
    var visited := {spec};
    ReachesSelf(g, spec);
    var queue := ParseDirectImports(disk, spec);
    ImportsAreBelow(disk, spec, spec);
    while queue != []
      invariant NoDuplicates(allImports)
      invariant forall p :: p in visited <==> p == spec || p in allImports
      invariant spec !in allImports
      invariant visited <= disk.Keys
      invariant forall p :: p in visited || p in queue ==> Reaches(g, spec, p) && p in disk
      invariant forall v, w :: v in visited && Edge(g, v, w) ==> w in visited || w in queue
      decreases disk.Keys - visited, |queue|
    {
      var current := queue[0];
      ghost var queue0 := queue;
      queue := queue[1..];
      assert forall p :: p in queue0 ==> p == current || p in queue;
      if current !in visited {
        visited := visited + {current};
        allImports := allImports + [current];
        var imports := ParseDirectImports(disk, current);
        ImportsAreBelow(disk, spec, current);
        queue := EnqueueNew(queue, imports, visited);
      }
    }
    ClosedHoldsReachable(g, visited, spec);
  }
}
