/** Patching a set of files, all or nothing. */
module PatchFiles {
  import opened Options
  import opened Text
  import opened CodePatches

  type Injector = (string, string, seq<Patch>) -> Option<string>

  /** What goes wrong with a file: reading it, or writing it after some text got there. */
  datatype Fault = NoFault | ReadFails | WriteFails(left: string)

  /** The patched files in the order of their first patch. */
  function FileOrder(ps: seq<Patch>): (order: seq<string>)
    ensures forall i, j :: 0 <= i < j < |order| ==> order[i] != order[j]
  {
    if ps == [] then []
    else
      var p, front := ps[|ps| - 1], ps[..|ps| - 1];
      var order := FileOrder(front);
      assert ps == front + [p];
      if p.file in order then order else order + [p.file]
  }

  function PatchesOf(ps: seq<Patch>, file: string): (r: seq<Patch>)
    ensures forall p :: p in r <==> p in ps && p.file == file
  {
    if ps == [] then []
    else
      var p, front := ps[|ps| - 1], ps[..|ps| - 1];
      assert ps == front + [p];
      PatchesOf(front, file) + (if p.file == file then [p] else [])
  }

  /** A file is visited exactly when it has a patch. */
  lemma {:induction false} VisitsPatchedFiles(ps: seq<Patch>, file: string)
    ensures file in FileOrder(ps) <==> PatchesOf(ps, file) != []
  {
    if ps != [] {
      VisitsPatchedFiles(ps[..|ps| - 1], file);
    }
  }

  function ByFile(ps: seq<Patch>): string -> seq<Patch> {
    f => PatchesOf(ps, f)
  }

  /** A table of the listed keys with their values. */
  ghost predicate Tabulates<K(!new), V>(order: seq<K>, groups: map<K, V>, of: K -> V) {
    && (forall k :: k in groups <==> k in order)
    && (forall k :: k in groups ==> groups[k] == of(k))
  }

  lemma TableNext<K(!new), V>(order: seq<K>, groups: map<K, V>, of: K -> V, k: K, v: V, of': K -> V)
    requires Tabulates(order, groups, of) && v == of'(k) && forall l :: l != k ==> of'(l) == of(l)
    ensures Tabulates(if k in order then order else order + [k], groups[k := v], of')
  {
  }

  ghost predicate Grouped(ps: seq<Patch>, order: seq<string>, groups: map<string, seq<Patch>>) {
    order == FileOrder(ps) && Tabulates(order, groups, ByFile(ps))
  }

  lemma NextOrder(ps: seq<Patch>, n: nat)
    requires n < |ps|
    ensures FileOrder(ps[..n + 1])
         == (if ps[n].file in FileOrder(ps[..n]) then FileOrder(ps[..n]) else FileOrder(ps[..n]) + [ps[n].file])
  {
    assert ps[..n + 1][..n] == ps[..n] && ps[..n + 1][n] == ps[n];
  }

  lemma NextPatches(ps: seq<Patch>, n: nat, f: string)
    requires n < |ps|
    ensures PatchesOf(ps[..n + 1], f) == PatchesOf(ps[..n], f) + (if ps[n].file == f then [ps[n]] else [])
  {
    assert ps[..n + 1][..n] == ps[..n] && ps[..n + 1][n] == ps[n];
  }

  lemma NewGroup(ps: seq<Patch>, n: nat, order: seq<string>, groups: map<string, seq<Patch>>)
    requires n < |ps| && Grouped(ps[..n], order, groups)
    ensures (if ps[n].file in groups then groups[ps[n].file] else []) + [ps[n]] == ByFile(ps[..n + 1])(ps[n].file)
  {
    VisitsPatchedFiles(ps[..n], ps[n].file);
    NextPatches(ps, n, ps[n].file);
  }

  lemma GroupedNext(ps: seq<Patch>, n: nat, order: seq<string>, groups: map<string, seq<Patch>>)
    requires n < |ps| && Grouped(ps[..n], order, groups)
    ensures var f := ps[n].file;
      Grouped(ps[..n + 1], if f in order then order else order + [f],
              groups[f := (if f in groups then groups[f] else []) + [ps[n]]])
  {
    var f := ps[n].file;
    NextOrder(ps, n);
    NewGroup(ps, n, order, groups);
    forall g | g != f
      ensures ByFile(ps[..n + 1])(g) == ByFile(ps[..n])(g)
    {
      NextPatches(ps, n, g);
      assert PatchesOf(ps[..n], g) + [] == PatchesOf(ps[..n], g);
    }
    TableNext(order, groups, ByFile(ps[..n]), f, (if f in groups then groups[f] else []) + [ps[n]], ByFile(ps[..n + 1]));
  }

  method GroupByFile(ps: seq<Patch>) returns (order: seq<string>, groups: map<string, seq<Patch>>)
    ensures Grouped(ps, order, groups)
  {
    order, groups := [], map[];
    assert ps[..0] == [];
    for k := 0 to |ps|
      invariant Grouped(ps[..k], order, groups)
    {
      GroupedNext(ps, k, order, groups);
      order, groups := AddToGroup(ps[k], order, groups);
    }
    assert ps[..|ps|] == ps;
  }

  method AddToGroup(p: Patch, order: seq<string>, groups: map<string, seq<Patch>>)
    returns (order': seq<string>, groups': map<string, seq<Patch>>)
    requires forall f :: f in groups <==> f in order
    ensures order' == if p.file in order then order else order + [p.file]
    ensures groups' == groups[p.file := (if p.file in groups then groups[p.file] else []) + [p]]
  {
    order', groups' := order, groups;
    if p.file !in groups' {
      groups', order' := groups'[p.file := []], order' + [p.file];
    }
    groups' := groups'[p.file := groups'[p.file] + [p]];
  }

  lemma ApplyNext(content: string, sorted: seq<Patch>, k: nat)
    requires k < |sorted|
    ensures ApplyInOrder(content, sorted[k..]) == ApplyInOrder(ApplyOne(content, sorted[k]), sorted[k + 1..])
    ensures SkippedInOrder(content, sorted[k..])
         == (if Matches(content, sorted[k]) then [] else [sorted[k]])
          + SkippedInOrder(ApplyOne(content, sorted[k]), sorted[k + 1..])
  {
    assert sorted[k..][1..] == sorted[k + 1..];
  }

  method TryPatch(content: string, p: Patch) returns (applied: bool, result: string)
    ensures applied == Matches(content, p) && result == ApplyOne(content, p)
  {
    var actual := Slice(content, p.offset, p.offset + p.length);
    if actual != p.original {
      return false, content;
    }
    return true, Slice(content, 0, p.offset) + p.replacement + Slice(content, p.offset + p.length, |content|);
  }

  /** Applying in order, with a warning for every skipped patch. */
  method ApplyPatches(content: string, sorted: seq<Patch>) returns (result: string, skipped: seq<Patch>)
    ensures result == ApplyInOrder(content, sorted) && skipped == SkippedInOrder(content, sorted)
  {
    result, skipped := content, [];
    assert sorted[0..] == sorted;
    for k := 0 to |sorted|
      invariant Remaining(result, skipped, sorted[k..]) == Remaining(content, [], sorted)
    {
      ApplyNext(result, sorted, k);
      ghost var was, before := result, skipped;
      var applied;
      applied, result := TryPatch(result, sorted[k]);
      skipped := skipped + (if applied then [] else [sorted[k]]);
      Associative(before, if applied then [] else [sorted[k]], SkippedInOrder(result, sorted[k + 1..]));
    }
    RemainingNothing(content, sorted, result, skipped);
  }

  /** The outcome once the remaining patches are applied, too. */
  ghost function Remaining(content: string, skipped: seq<Patch>, ps: seq<Patch>): (string, seq<Patch>) {
    (ApplyInOrder(content, ps), skipped + SkippedInOrder(content, ps))
  }

  lemma RemainingNothing(content: string, ps: seq<Patch>, result: string, skipped: seq<Patch>)
    requires Remaining(result, skipped, ps[|ps|..]) == Remaining(content, [], ps)
    ensures result == ApplyInOrder(content, ps) && skipped == SkippedInOrder(content, ps)
  {
    assert skipped + [] == skipped && [] + SkippedInOrder(content, ps) == SkippedInOrder(content, ps);
  }

  /** The new text of a file, if the injection does not fail. */
  function Patched(content: string, ps: seq<Patch>, inject: Injector): Option<string> {
    var sorted := Descending(ps);
    inject(content, ApplyInOrder(content, sorted), sorted)
  }

  /** With disjoint patches the injection sees every matching patch substituted at once. */
  lemma PatchedIsSubstituted(content: string, ps: seq<Patch>, inject: Injector)
    requires Disjoint(content, ps)
    ensures Patched(content, ps, inject) == inject(content, Substituted(content, ps), Descending(ps))
  {
    DescendingIsSimultaneous(content, ps);
  }

  predicate Succeeds(files: map<string, string>, f: string, ps: seq<Patch>, inject: Injector, faults: string -> Fault) {
    f in files && faults(f) == NoFault && Patched(files[f], PatchesOf(ps, f), inject).Some?
  }

  predicate AllSucceed(files: map<string, string>, ps: seq<Patch>, inject: Injector, faults: string -> Fault) {
    forall f :: f in FileOrder(ps) ==> Succeeds(files, f, ps, inject, faults)
  }

  /** Each backup holds the text that the file had before. */
  predicate AreBackups(files: map<string, string>, backups: seq<(string, string)>) {
    forall i :: 0 <= i < |backups| ==> backups[i].0 in files && files[backups[i].0] == backups[i].1
  }

  predicate HasBackup(backups: seq<(string, string)>, f: string) {
    exists i :: 0 <= i < |backups| && backups[i].0 == f
  }

  /** Outside the backed-up files nothing differs. */
  ghost predicate SameElsewhere(before: map<string, string>, after: map<string, string>, backups: seq<(string, string)>) {
    && before.Keys == after.Keys
    && forall f :: f in before && !HasBackup(backups, f) ==> after[f] == before[f]
  }

  class SourceTree {
    var files: map<string, string>

    constructor (texts: map<string, string>)
      ensures files == texts
    {
      files := texts;
    }

    /** Reads, patches and writes one file; the backup is there before anything is written. */
    method PatchFile(f: string, ps: seq<Patch>, inject: Injector, faults: string -> Fault)
      returns (ok: bool, backup: seq<(string, string)>)
      modifies this
      ensures backup == if f in old(files) && faults(f) != ReadFails then [(f, old(files)[f])] else []
      ensures SameElsewhere(old(files), files, backup)
      ensures ok <==> f in old(files) && faults(f) == NoFault && Patched(old(files)[f], ps, inject).Some?
      ensures ok ==> f in files && Patched(old(files)[f], ps, inject) == Some(files[f])
    {
      backup := [];
      if f !in files || faults(f) == ReadFails {
        return false, backup;
      }
      var original := files[f];
      backup := [(f, original)];
      assert backup[0].0 == f;
      var sorted := Descending(ps);
      var content, _ := ApplyPatches(original, sorted);
      match inject(original, content, sorted)
      case None => ok := false;
      case Some(text) =>
        ok := faults(f) == NoFault;
        files := files[f := if ok then text else faults(f).left];
    }

    method Restore(backups: seq<(string, string)>, ghost before: map<string, string>)
      requires AreBackups(before, backups) && SameElsewhere(before, files, backups)
      modifies this
      ensures files == before
    {
      for i := 0 to |backups|
        invariant SameElsewhere(before, files, backups[i..])
      {
        var (f, text) := backups[i];
        files := files[f := text];
        forall g | g in before && !HasBackup(backups[i + 1..], g)
          ensures files[g] == before[g]
        {
          if g != f {
            NotBackedUp(backups[i..], g);
          }
        }
      }
      NothingBackedUp(before, files, backups[|backups|..]);
    }

    /** Either every file gets its patches, or the whole tree is as before. */
    method ApplyCodeAccessPatches(ps: seq<Patch>, inject: Injector, faults: string -> Fault) returns (ok: bool)
      modifies this
      ensures ok <==> AllSucceed(old(files), ps, inject, faults)
      ensures !ok ==> files == old(files)
      ensures ok ==> files.Keys == old(files).Keys
      ensures ok ==> forall f :: f in FileOrder(ps) ==>
                f in files && files[f] == Patched(old(files)[f], PatchesOf(ps, f), inject).value
      ensures ok ==> forall f :: f in files && f !in FileOrder(ps) ==> files[f] == old(files)[f]
    {
      ghost var before := files;
      var order, groups := GroupByFile(ps);
      var backups: seq<(string, string)> := [];
      for k := 0 to |order|
        invariant order == FileOrder(ps)
        invariant PatchedUpTo(before, files, ps, inject, faults, backups, k)
      {
        var f := order[k];
        ghost var now := files;
        var done, backup := PatchFile(f, groups[f], inject, faults);
        if !done {
          FailedAt(before, now, files, ps, inject, faults, backups, k, backup);
          Restore(backups + backup, before);
          return false;
        }
        PatchedNext(before, now, files, ps, inject, faults, backups, k);
        backups := backups + backup;
      }
      ok := true;
      AllPatched(before, files, ps, inject, faults, backups);
    }
  }

  predicate Holds(before: map<string, string>, after: map<string, string>, f: string, ps: seq<Patch>, inject: Injector) {
    f in before && f in after && Patched(before[f], PatchesOf(ps, f), inject) == Some(after[f])
  }

  /** The first k files are patched and backed up, the others are as before. */
  ghost predicate PatchedUpTo(before: map<string, string>, after: map<string, string>, ps: seq<Patch>,
                              inject: Injector, faults: string -> Fault, backups: seq<(string, string)>, k: nat)
  {
    && AreBackups(before, backups) && SameElsewhere(before, after, backups)
    && |backups| == k <= |FileOrder(ps)|
    && forall i :: 0 <= i < k ==>
         && backups[i].0 == FileOrder(ps)[i]
         && Succeeds(before, backups[i].0, ps, inject, faults)
         && Holds(before, after, backups[i].0, ps, inject)
  }

  lemma UntouchedSoFar(before: map<string, string>, now: map<string, string>, ps: seq<Patch>,
                       inject: Injector, faults: string -> Fault, backups: seq<(string, string)>, k: nat)
    requires PatchedUpTo(before, now, ps, inject, faults, backups, k) && k < |FileOrder(ps)|
    ensures var f := FileOrder(ps)[k];
      !HasBackup(backups, f) && (f in now <==> f in before) && (f in before ==> now[f] == before[f])
  {
    assert forall i :: 0 <= i < |backups| ==> backups[i].0 == FileOrder(ps)[i];
  }

  lemma BackupsGrow(before: map<string, string>, now: map<string, string>, after: map<string, string>,
                    backups: seq<(string, string)>, backup: seq<(string, string)>)
    requires AreBackups(before, backups) && AreBackups(before, backup)
    requires SameElsewhere(before, now, backups) && SameElsewhere(now, after, backup)
    ensures AreBackups(before, backups + backup) && SameElsewhere(before, after, backups + backup)
  {
    var all := backups + backup;
    forall f | f in before && !HasBackup(all, f)
      ensures after[f] == before[f]
    {
      forall i | 0 <= i < |backups|
        ensures backups[i].0 != f
      {
        assert all[i] == backups[i];
      }
      forall i | 0 <= i < |backup|
        ensures backup[i].0 != f
      {
        assert all[|backups| + i] == backup[i];
      }
    }
  }

  lemma FailedAt(before: map<string, string>, now: map<string, string>, after: map<string, string>, ps: seq<Patch>,
                 inject: Injector, faults: string -> Fault, backups: seq<(string, string)>, k: nat,
                 backup: seq<(string, string)>)
    requires PatchedUpTo(before, now, ps, inject, faults, backups, k) && k < |FileOrder(ps)|
    requires var f := FileOrder(ps)[k];
      && !Succeeds(now, f, ps, inject, faults)
      && backup == if f in now && faults(f) != ReadFails then [(f, now[f])] else []
    requires SameElsewhere(now, after, backup)
    ensures AreBackups(before, backups + backup) && SameElsewhere(before, after, backups + backup)
    ensures !AllSucceed(before, ps, inject, faults)
  {
    UntouchedSoFar(before, now, ps, inject, faults, backups, k);
    BackupsGrow(before, now, after, backups, backup);
    assert FileOrder(ps)[k] in FileOrder(ps);
  }

  lemma PatchedNext(before: map<string, string>, now: map<string, string>, after: map<string, string>, ps: seq<Patch>,
                    inject: Injector, faults: string -> Fault, backups: seq<(string, string)>, k: nat)
    requires PatchedUpTo(before, now, ps, inject, faults, backups, k) && k < |FileOrder(ps)|
    requires var f := FileOrder(ps)[k];
      && Succeeds(now, f, ps, inject, faults) && Holds(now, after, f, ps, inject)
      && SameElsewhere(now, after, [(f, now[f])])
    ensures var f := FileOrder(ps)[k];
      PatchedUpTo(before, after, ps, inject, faults, backups + [(f, now[f])], k + 1)
  {
    var f := FileOrder(ps)[k];
    var longer := backups + [(f, now[f])];
    UntouchedSoFar(before, now, ps, inject, faults, backups, k);
    BackupsGrow(before, now, after, backups, [(f, now[f])]);
    forall i | 0 <= i < k + 1
      ensures longer[i].0 == FileOrder(ps)[i]
      ensures Succeeds(before, longer[i].0, ps, inject, faults) && Holds(before, after, longer[i].0, ps, inject)
    {
      if i < k {
        assert longer[i] == backups[i];
        assert !HasBackup([(f, now[f])], longer[i].0);
      }
    }
  }

  lemma AllPatched(before: map<string, string>, after: map<string, string>, ps: seq<Patch>,
                   inject: Injector, faults: string -> Fault, backups: seq<(string, string)>)
    requires PatchedUpTo(before, after, ps, inject, faults, backups, |FileOrder(ps)|)
    ensures AllSucceed(before, ps, inject, faults) && before.Keys == after.Keys
    ensures forall f :: f in FileOrder(ps) ==> Holds(before, after, f, ps, inject)
    ensures forall f :: f in after && f !in FileOrder(ps) ==> after[f] == before[f]
  {
    forall f | f in FileOrder(ps)
      ensures Succeeds(before, f, ps, inject, faults) && Holds(before, after, f, ps, inject)
    {
      var i :| 0 <= i < |FileOrder(ps)| && FileOrder(ps)[i] == f;
      assert backups[i].0 == f;
    }
    forall f | f in after && f !in FileOrder(ps)
      ensures after[f] == before[f]
    {
      assert !HasBackup(backups, f);
    }
  }

  lemma NotBackedUp(backups: seq<(string, string)>, g: string)
    requires backups != [] && backups[0].0 != g && !HasBackup(backups[1..], g)
    ensures !HasBackup(backups, g)
  {
  }

  lemma NothingBackedUp(before: map<string, string>, after: map<string, string>, backups: seq<(string, string)>)
    requires SameElsewhere(before, after, backups) && backups == []
    ensures before == after
  {
    forall f | f in before
      ensures before[f] == after[f]
    {
      assert !HasBackup(backups, f);
    }
  }
}
