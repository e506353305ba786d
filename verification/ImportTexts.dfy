/**
 * Spec files as texts: on texts whose imports are spelled as the regular expressions demand, rewriting
 * the text rewrites the imports that the scanner finds, one by one.
 */
module ImportTexts {
  import opened Options
  import opened ImportScanner
  import opened ImportRewriter
  import StatementRewriter
  import opened SpecFiles
  import opened RecursiveUpdate
  import IvCopies

  // ----- Targets as paths -----

  /** The offset behind the last slash. */
  function FileStart(target: string): (n: nat)
    ensures n <= |target| && '/' !in target[n..] && (n > 0 ==> target[n - 1] == '/')
  {
    if target == "" then 0
    else if target[|target| - 1] == '/' then |target|
    else
      var front := target[..|target| - 1];
      assert target[FileStart(front)..] == front[FileStart(front)..] + [target[|target| - 1]];
      FileStart(front)
  }

  function DirOf(target: string): string {
    target[..FileStart(target)]
  }

  function FileOf(target: string): string {
    target[FileStart(target)..]
  }

  function Components(dir: string): (parts: seq<string>)
    ensures parts != []
  {
    if dir == "" then [""]
    else
      var later := Components(dir[1..]);
      if dir[0] == '/' then [""] + later else [[dir[0]] + later[0]] + later[1..]
  }

  function ItemOf(target: string): (item: Item)
    ensures item.Import?
  {
    ItemIn(DirOf(target), FileOf(target))
  }

  /** A file of a directory that is empty or ends with a slash. */
  function ItemIn(dir: string, file: string): (item: Item)
    ensures item.Import?
  {
    Import("/" <= dir, Components(dir), file)
  }

  /** The imports of a text. */
  function ItemsOf(text: string): SpecFile {
    var targets := Scan(false, text);
    seq(|targets|, i requires 0 <= i < |targets| => ItemOf(targets[i]))
  }

  lemma {:induction false} FileStartIs(dir: string, file: string)
    requires '/' !in file && (dir != "" ==> dir[|dir| - 1] == '/')
    ensures FileStart(dir + file) == |dir|
    decreases |file|
  {
    if file == "" {
      assert dir + file == dir;
    } else {
      FileStartIs(dir, file[..|file| - 1]);
      assert (dir + file)[..|dir + file| - 1] == dir + file[..|file| - 1];
    }
  }

  /** Another file name in the same directory. */
  lemma Renamed(target: string, file: string)
    requires '/' !in file
    ensures ItemOf(DirOf(target) + file) == ItemIn(DirOf(target), file)
  {
    FileStartIs(DirOf(target), file);
    assert DirOf(DirOf(target) + file) == DirOf(target) && FileOf(DirOf(target) + file) == file;
  }

  /** Directory names, each with a slash behind it. */
  function Slashed(parts: seq<string>): string {
    if parts == [] then "" else parts[0] + "/" + Slashed(parts[1..])
  }

  lemma {:induction false} ComponentsOfPart(part: string, rest: string)
    requires '/' !in part
    ensures Components(part + "/" + rest) == [part] + Components(rest)
    decreases |part|
  {
    var s := part + "/" + rest;
    if part == "" {
      assert s[1..] == rest;
    } else {
      assert s[1..] == part[1..] + "/" + rest;
      ComponentsOfPart(part[1..], rest);
      var later := Components(s[1..]);
      assert later == [part[1..]] + Components(rest);
      assert later[0] == part[1..] && later[1..] == Components(rest);
      assert [part[0]] + part[1..] == part && s[0] == part[0];
    }
  }

  lemma {:induction false} ComponentsOfSlashed(parts: seq<string>)
    requires forall i :: 0 <= i < |parts| ==> '/' !in parts[i]
    ensures Components(Slashed(parts)) == parts + [""]
  {
    if parts != [] {
      ComponentsOfSlashed(parts[1..]);
      ComponentsOfPart(parts[0], Slashed(parts[1..]));
      assert [parts[0]] + (parts[1..] + [""]) == parts + [""];
    }
  }

  lemma {:induction false} SlashedEnds(parts: seq<string>)
    ensures Slashed(parts) != "" ==> Slashed(parts)[|Slashed(parts)| - 1] == '/'
  {
    if parts != [] {
      SlashedEnds(parts[1..]);
    }
  }

  lemma SlashedStarts(parts: seq<string>)
    requires forall i :: 0 <= i < |parts| ==> '/' !in parts[i]
    ensures "/" <= Slashed(parts) <==> parts != [] && parts[0] == ""
  {
    if parts != [] {
      assert Slashed(parts)[0] == (parts[0] + "/")[0];
      assert parts[0] != "" ==> parts[0][0] in parts[0];
    }
  }

  lemma SplitAtFile(dir: string, file: string)
    requires '/' !in file && (dir != "" ==> dir[|dir| - 1] == '/')
    ensures DirOf(dir + file) == dir && FileOf(dir + file) == file
  {
    FileStartIs(dir, file);
  }

  /** A target is split at its slashes; it is absolute if it starts with one. */
  lemma TargetIsSplit(parts: seq<string>, file: string)
    requires (forall i :: 0 <= i < |parts| ==> '/' !in parts[i]) && '/' !in file
    ensures ItemOf(Slashed(parts) + file) == Import(parts != [] && parts[0] == "", parts + [""], file)
  {
    SlashedEnds(parts);
    SplitAtFile(Slashed(parts), file);
    ComponentsOfSlashed(parts);
    SlashedStarts(parts);
  }

  lemma EmptyPartStays(base: seq<string>, rel: seq<string>)
    ensures ResolveDir(base, rel + [""]) == ResolveDir(base, rel)
    ensures ResolveDir(base, [""] + rel) == ResolveDir(base, rel)
  {
    ResolvesInTurn(base, rel, [""]);
    ResolvesInTurn(base, [""], rel);
    HereStays(base);
    HereStays(ResolveDir(base, rel));
  }

  /** A relative target, with its steps up and down written out. */
  lemma TargetAcross(base: seq<string>, down: seq<string>, names: seq<string>, file: string)
    requires forall i :: 0 <= i < |names| ==> IsDirName(names[i]) && '/' !in names[i]
    requires '/' !in file
    ensures Target(base + down, ItemOf(Slashed(Ups(|down|) + names) + file)) == Path(base + names, file)
  {
    var parts := Ups(|down|) + names;
    UpsHaveNoSlash(|down|);
    TargetIsSplit(parts, file);
    EmptyPartStays(base + down, parts);
    UpsAndDowns(base, down, names);
  }

  lemma {:induction false} UpsHaveNoSlash(n: nat)
    ensures forall i :: 0 <= i < |Ups(n)| ==> Ups(n)[i] == ".."
  {
    if n > 0 {
      UpsHaveNoSlash(n - 1);
    }
  }

  lemma TargetFromRoot(dir: seq<string>, names: seq<string>, file: string)
    requires forall i :: 0 <= i < |names| ==> IsDirName(names[i]) && '/' !in names[i]
    requires '/' !in file
    ensures Target(dir, ItemOf(Slashed([""] + names) + file)) == Path(names, file)
  {
    TargetIsSplit([""] + names, file);
    EmptyPartStays([], [""] + names);
    EmptyPartStays([], names);
    NamesEnter([], names);
    assert [] + names == names;
  }

  // ----- Redirecting by file name -----

  function RenameFile(oldName: string, newName: string): Redirection {
    target => if FileOf(target) == oldName then Some(DirOf(target) + newName) else None
  }

  predicate IsFileName(name: string) {
    name != "" && '/' !in name && NeedsNoEscape(name)
  }

  lemma PartsNeedNoEscape(target: string)
    requires NeedsNoEscape(target)
    ensures NeedsNoEscape(DirOf(target)) && NeedsNoEscape(FileOf(target))
  {
  }

  lemma RenameFileIsPrintable(oldName: string, newName: string)
    requires IsFileName(newName)
    ensures Printable(RenameFile(oldName, newName))
  {
    forall target: string | NeedsNoEscape(target)
      ensures NeedsNoEscape(DirOf(target) + newName)
    {
      PartsNeedNoEscape(target);
    }
  }

  lemma RenamedTarget(oldName: string, newName: string, target: string)
    ensures RedirectTarget(RenameFile(oldName, newName), target)
         == if FileOf(target) == oldName then DirOf(target) + newName else target
  {
  }

  lemma RedirectedItem(dir: string, file: string, oldName: string, newName: string)
    ensures Redirect(ItemIn(dir, file), oldName, newName) == ItemIn(dir, if file == oldName then newName else file)
  {
  }

  lemma RenameFileRedirects(oldName: string, newName: string, target: string)
    requires IsFileName(newName)
    ensures ItemOf(RedirectTarget(RenameFile(oldName, newName), target)) == Redirect(ItemOf(target), oldName, newName)
  {
    RenamedTarget(oldName, newName, target);
    RedirectedItem(DirOf(target), FileOf(target), oldName, newName);
    Renamed(target, newName);
  }

  /** All imports are spelled with white space and without escapes. */
  predicate AllSpelled(ts: seq<Token>) {
    forall i :: 0 <= i < |ts| && ts[i].ImportStmt? ==> Spelled(ts[i])
  }

  lemma {:induction false} SpelledChanges(redirect: Redirection, ts: seq<Token>)
    requires AllSpelled(ts)
    ensures ChangesAreSpelled(redirect, ts)
  {
    if ts != [] {
      SpelledChanges(redirect, ts[1..]);
    }
  }

  lemma {:induction false} StaysSpelled(redirect: Redirection, ts: seq<Token>, e: End)
    requires AllSpelled(ts) && WellFormed(ts, e) && Printable(redirect)
    ensures AllSpelled(Redirected(redirect, ts))
  {
    if ts != [] {
      StaysSpelled(redirect, ts[1..], e);
      if NewTarget(redirect, ts[0]).Some? {
        NewImportOk(redirect, ts[0]);
      }
    }
  }

  /** The text after all file-name updates, one after the other. */
  function TextAfter(text: string, updates: seq<(string, string)>): string {
    if updates == [] then text
    else
      var last := updates[|updates| - 1];
      Substitute(Quoted(), "", RenameFile(last.0, last.1), TextAfter(text, updates[..|updates| - 1]))
  }

  ghost predicate Prints(ts: seq<Token>, e: End, text: string) {
    WellFormed(ts, e) && Readable(ts, e) && AllSpelled(ts) && Print(ts, e) == text
  }

  lemma UpdateKeepsTokens(ts: seq<Token>, e: End, text: string, redirect: Redirection)
    requires Prints(ts, e, text) && Printable(redirect)
    ensures Prints(Redirected(redirect, ts), e, Substitute(Quoted(), "", redirect, text))
    ensures Scan(false, Substitute(Quoted(), "", redirect, text)) == RedirectTargets(redirect, Scan(false, text))
  {
    SubstitutionRedirects(redirect, ts, e);
    RedirectedIsReadable(redirect, ts, e);
    StaysSpelled(redirect, ts, e);
    SpelledChanges(redirect, ts);
    SubstitutionMeetsScanner(redirect, ts, e);
  }

  lemma TargetsAreItems(redirect: Redirection, text: string, text': string, items: seq<Item>)
    requires Scan(false, text') == RedirectTargets(redirect, Scan(false, text)) && |items| == |Scan(false, text)|
    requires forall i :: 0 <= i < |items| ==> ItemOf(RedirectTarget(redirect, Scan(false, text)[i])) == items[i]
    ensures ItemsOf(text') == items
  {
  }

  lemma OneUpdate(ts: seq<Token>, e: End, text: string, oldName: string, newName: string)
    requires Prints(ts, e, text) && IsFileName(newName)
    ensures var redirect := RenameFile(oldName, newName);
      && Prints(Redirected(redirect, ts), e, Substitute(Quoted(), "", redirect, text))
      && ItemsOf(Substitute(Quoted(), "", redirect, text)) == RedirectAll(ItemsOf(text), oldName, newName)
  {
    var redirect := RenameFile(oldName, newName);
    RenameFileIsPrintable(oldName, newName);
    UpdateKeepsTokens(ts, e, text, redirect);
    forall i | 0 <= i < |Scan(false, text)|
      ensures ItemOf(RedirectTarget(redirect, Scan(false, text)[i])) == RedirectAll(ItemsOf(text), oldName, newName)[i]
    {
      RenameFileRedirects(oldName, newName, Scan(false, text)[i]);
    }
    TargetsAreItems(redirect, text, Substitute(Quoted(), "", redirect, text), RedirectAll(ItemsOf(text), oldName, newName));
  }

  /** Updating a text updates its imports as the model of a spec file does. */
  lemma {:induction false} TextUpdatesAreRewrites(ts: seq<Token>, e: End, text: string, updates: seq<(string, string)>)
    returns (ts': seq<Token>)
    requires Prints(ts, e, text) && forall i :: 0 <= i < |updates| ==> IsFileName(updates[i].1)
    ensures Prints(ts', e, TextAfter(text, updates))
    ensures ItemsOf(TextAfter(text, updates)) == Rewrite(ItemsOf(text), updates)
  {
    if updates == [] {
      ts' := ts;
    } else {
      var front, last := updates[..|updates| - 1], updates[|updates| - 1];
      var before := TextUpdatesAreRewrites(ts, e, text, front);
      OneUpdate(before, e, TextAfter(text, front), last.0, last.1);
      ts' := Redirected(RenameFile(last.0, last.1), before);
    }
  }

  /** The text written for an importing spec has the imports that the model of its copy has. */
  lemma CopyOfText(disk: Disk, fixes: map<Path, Fix>, names: Naming, done: seq<Path>, p: Path,
                   ts: seq<Token>, e: End, text: string)
    requires Prints(ts, e, text) && p in disk && disk[p] == ItemsOf(text) && p !in fixes
    requires forall k :: 0 <= k < |done| ==> IsFileName(NewPath(names, done[k]).name)
    ensures ItemsOf(TextAfter(text, UpdatesOf(names, done))) == Copied(disk, fixes, names, done, p)
  {
    var _ := TextUpdatesAreRewrites(ts, e, text, UpdatesOf(names, done));
  }

  // ----- Prefixing the copied specs -----

  /** Puts a prefix before the file names of some targets. */
  function PrefixChosen(prefix: string, chosen: string -> bool): Redirection {
    target => if chosen(target) then Some(DirOf(target) + (prefix + FileOf(target))) else None
  }

  lemma PrefixedNeedsNoEscape(prefix: string, target: string)
    requires IsFileName(prefix) && NeedsNoEscape(target)
    ensures NeedsNoEscape(DirOf(target) + (prefix + FileOf(target)))
  {
    PartsNeedNoEscape(target);
  }

  lemma PrefixChosenIsPrintable(prefix: string, chosen: string -> bool)
    requires IsFileName(prefix)
    ensures Printable(PrefixChosen(prefix, chosen))
  {
    forall target: string | NeedsNoEscape(target)
      ensures NeedsNoEscape(DirOf(target) + (prefix + FileOf(target)))
    {
      PrefixedNeedsNoEscape(prefix, target);
    }
  }

  lemma PrefixedItem(prefix: string, target: string)
    requires IsFileName(prefix)
    ensures ItemOf(DirOf(target) + (prefix + FileOf(target))) == ItemIn(DirOf(target), prefix + FileOf(target))
  {
    Renamed(target, prefix + FileOf(target));
  }

  /** All imports are spelled plainly and have their semicolon next. */
  predicate AllStatements(ts: seq<Token>) {
    ts == [] || ((ts[0].ImportStmt? ==> Spelled(ts[0]) && StatementRewriter.Ended(ts[1..])) && AllStatements(ts[1..]))
  }

  lemma {:induction false} StatementChanges(redirect: Redirection, ts: seq<Token>)
    requires AllStatements(ts)
    ensures StatementRewriter.ChangesAreStatements(redirect, ts)
  {
    if ts != [] {
      StatementChanges(redirect, ts[1..]);
    }
  }

  lemma ChosenTarget(prefix: string, chosen: string -> bool, target: string)
    ensures RedirectTarget(PrefixChosen(prefix, chosen), target)
         == if chosen(target) then DirOf(target) + (prefix + FileOf(target)) else target
  {
  }

  function Chosen(listed: Item -> bool): string -> bool {
    (target: string) => listed(ItemOf(target))
  }

  lemma PrefixedItemIs(prefix: string, target: string, target': string)
    requires IsFileName(prefix) && target' == DirOf(target) + (prefix + FileOf(target))
    ensures ItemOf(target).Import?
    ensures ItemOf(target') == ItemOf(target).(file := prefix + ItemOf(target).file)
  {
    PrefixedItem(prefix, target);
  }

  lemma CopiedItem(prefix: string, listed: Item -> bool, target: string)
    requires IsFileName(prefix)
    ensures ItemOf(RedirectTarget(PrefixChosen(prefix, Chosen(listed)), target))
         == IvCopies.PrefixImport(prefix, ItemOf(target), listed)
  {
    ChosenTarget(prefix, Chosen(listed), target);
    if listed(ItemOf(target)) {
      PrefixedItemIs(prefix, target, DirOf(target) + (prefix + FileOf(target)));
    }
  }

  lemma CopyKeepsTargets(redirect: Redirection, ts: seq<Token>, e: End, prefix: string, chosen: string -> bool)
    requires IsFileName(prefix) && redirect == PrefixChosen(prefix, chosen)
    requires WellFormed(ts, e) && StatementRewriter.Legible(ts, e) && AllStatements(ts)
    ensures Scan(false, Substitute(Statement(), ";", redirect, Print(ts, e))) == RedirectTargets(redirect, Scan(false, Print(ts, e)))
  {
    PrefixChosenIsPrintable(prefix, chosen);
    StatementChanges(redirect, ts);
    StatementRewriter.SubstitutionMeetsScanner(redirect, ts, e);
  }

  lemma TextCopyPrefixesImports(prefix: string, ts: seq<Token>, e: End, listed: Item -> bool)
    requires IsFileName(prefix) && WellFormed(ts, e) && StatementRewriter.Legible(ts, e) && AllStatements(ts)
    ensures ItemsOf(Substitute(Statement(), ";", PrefixChosen(prefix, Chosen(listed)), Print(ts, e)))
         == IvCopies.PrefixImports(prefix, ItemsOf(Print(ts, e)), listed)
  {
    var redirect, text := PrefixChosen(prefix, Chosen(listed)), Print(ts, e);
    CopyKeepsTargets(redirect, ts, e, prefix, Chosen(listed));
    forall i | 0 <= i < |Scan(false, text)|
      ensures ItemOf(RedirectTarget(redirect, Scan(false, text)[i])) == IvCopies.PrefixImports(prefix, ItemsOf(text), listed)[i]
    {
      CopiedItem(prefix, listed, Scan(false, text)[i]);
    }
    TargetsAreItems(redirect, text, Substitute(Statement(), ";", redirect, text), IvCopies.PrefixImports(prefix, ItemsOf(text), listed));
  }

  lemma IvPrefixIsFileName()
    ensures IsFileName(IvCopies.IV_PREFIX)
  {
  }

  /** Prefixing the imports of a text is what the model of an IV copy does to its imports. */
  lemma TextCopyUpdatesImports(ts: seq<Token>, e: End, dir: seq<string>, mapped: seq<Path>)
    requires WellFormed(ts, e) && StatementRewriter.Legible(ts, e) && AllStatements(ts)
    ensures ItemsOf(Substitute(Statement(), ";", PrefixChosen(IvCopies.IV_PREFIX, Chosen(IvCopies.Copied(dir, mapped))), Print(ts, e)))
         == IvCopies.UpdateImports(ItemsOf(Print(ts, e)), dir, mapped)
  {
    IvPrefixIsFileName();
    TextCopyPrefixesImports(IvCopies.IV_PREFIX, ts, e, IvCopies.Copied(dir, mapped));
  }
}
