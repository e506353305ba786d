/**
 * The repair round and the IV copies on texts: if the imports are spelled as the regular expressions
 * demand, the import graphs that the scanner finds before and after are those of the rounds on items.
 */
module TextRounds {
  import opened ImportScanner
  import opened ImportRewriter
  import opened ImportTexts
  import opened SpecFiles
  import opened Graphs
  import opened RecursiveUpdate
  import opened RoundCorrectness
  import IvCopies
  import StatementRewriter

  type Texts = map<Path, string>

  type TextFix = string -> string

  /** The imports that the scanner finds in each file. */
  function DiskOf(texts: Texts): Disk {
    map p | p in texts :: ItemsOf(texts[p])
  }

  // ----- The repair round -----

  /** What is written for `p` when the specs in `done` have been copied before. */
  function TextCopied(texts: Texts, fixes: map<Path, TextFix>, names: Naming, done: seq<Path>, p: Path): string
    requires p in texts
  {
    if p in fixes then fixes[p](texts[p])
    else TextAfter(texts[p], UpdatesOf(names, done))
  }

  ghost predicate TextCopyMade(texts: Texts, fixes: map<Path, TextFix>, names: Naming, done: seq<Path>,
                               texts': Texts, k: nat)
  {
    && k < |done| && done[k] in texts && NewPath(names, done[k]) in texts'
    && texts'[NewPath(names, done[k])] == TextCopied(texts, fixes, names, done[..k], done[k])
  }

  /** The texts after the specs in `done` have been copied, in that order: no other text changed. */
  ghost predicate TextsCopied(texts: Texts, fixes: map<Path, TextFix>, names: Naming, done: seq<Path>, texts': Texts) {
    && (forall p :: p in texts ==> p in texts' && texts'[p] == texts[p])
    && (forall p :: p in texts' ==> p in texts || IsNew(names, done, p))
    && (forall k: nat :: k < |done| ==> TextCopyMade(texts, fixes, names, done, texts', k))
  }

  /** Some document prints the text and spells its imports as the regular expression demands. */
  ghost predicate WellSpelled(text: string) {
    exists ts, e :: Prints(ts, e, text)
  }

  /** What the text fixes do to the imports. */
  ghost function ItemFixes(texts: Texts, fixes: map<Path, TextFix>): map<Path, Fix> {
    map p | p in texts && p in fixes :: _ => ItemsOf(fixes[p](texts[p]))
  }

  /** The specs to copy: the importing ones are well spelled, and the new names are file names. */
  ghost predicate Rewritable(texts: Texts, fixes: map<Path, TextFix>, names: Naming, sorted: seq<Path>) {
    forall p :: p in sorted ==>
      && p in texts && IsFileName(NewPath(names, p).name)
      && (p !in fixes ==> WellSpelled(texts[p]))
  }

  lemma ImportingCopy(texts: Texts, fixes: map<Path, TextFix>, names: Naming, done: seq<Path>, p: Path)
    requires Rewritable(texts, fixes, names, done) && p in texts && p !in fixes && WellSpelled(texts[p])
    ensures ItemsOf(TextAfter(texts[p], UpdatesOf(names, done)))
         == Copied(DiskOf(texts), ItemFixes(texts, fixes), names, done, p)
  {
    var ts, e :| Prints(ts, e, texts[p]);
    forall k | 0 <= k < |done|
      ensures IsFileName(NewPath(names, done[k]).name)
    {
      assert done[k] in done;
    }
    CopyOfText(DiskOf(texts), ItemFixes(texts, fixes), names, done, p, ts, e, texts[p]);
  }

  lemma CopyOnItems(texts: Texts, fixes: map<Path, TextFix>, names: Naming, done: seq<Path>, p: Path)
    requires Rewritable(texts, fixes, names, done + [p])
    ensures p in texts
    ensures ItemsOf(TextCopied(texts, fixes, names, done, p))
         == Copied(DiskOf(texts), ItemFixes(texts, fixes), names, done, p)
  {
    assert p in done + [p] && forall q :: q in done ==> q in done + [p];
    if p !in fixes {
      ImportingCopy(texts, fixes, names, done, p);
    }
  }

  lemma CopyMadeOnItems(texts: Texts, fixes: map<Path, TextFix>, names: Naming, done: seq<Path>, texts': Texts, k: nat)
    requires Rewritable(texts, fixes, names, done)
    requires TextCopyMade(texts, fixes, names, done, texts', k)
    ensures CopyMade(DiskOf(texts), ItemFixes(texts, fixes), names, done, DiskOf(texts'), k)
  {
    assert forall p :: p in done[..k] + [done[k]] ==> p in done;
    CopyOnItems(texts, fixes, names, done[..k], done[k]);
  }

  /** Copying texts copies their imports. */
  lemma CopiedOnItems(texts: Texts, fixes: map<Path, TextFix>, names: Naming, done: seq<Path>, texts': Texts)
    requires Rewritable(texts, fixes, names, done)
    requires TextsCopied(texts, fixes, names, done, texts')
    ensures CopiedAll(DiskOf(texts), ItemFixes(texts, fixes), names, done, DiskOf(texts'))
  {
    forall k: nat | k < |done|
      ensures CopyMade(DiskOf(texts), ItemFixes(texts, fixes), names, done, DiskOf(texts'), k)
    {
      assert TextCopyMade(texts, fixes, names, done, texts', k);
      CopyMadeOnItems(texts, fixes, names, done, texts', k);
    }
  }

  /** The round on texts, in terms of the files and the imports that the scanner finds in them. */
  ghost predicate IsTextRound(texts: Texts, main: Path, fixed: seq<Path>, fixes: map<Path, TextFix>, names: Naming,
                              sorted: seq<Path>, texts': Texts)
  {
    && NoDuplicates(sorted) && ImportsBefore(ImportGraph(DiskOf(texts)), sorted)
    && (forall p :: p in sorted <==> Affected(ImportGraph(DiskOf(texts)), main, fixed, p))
    && TextsCopied(texts, fixes, names, sorted, texts')
  }

  /** What a round on texts assumes, in terms of the imports that the scanner finds. */
  ghost predicate TextRoundOk(texts: Texts, main: Path, fixed: seq<Path>, fixes: map<Path, TextFix>, names: Naming,
                              sorted: seq<Path>)
  {
    && FreshNames(DiskOf(texts), names) && UniqueNames(DiskOf(texts)) && OneNameEach(names, sorted)
    && PlanOk(ImportGraph(DiskOf(texts)), main, fixed) && OnlyFixes(sorted, fixes.Keys, fixed)
    && (forall p :: p in texts && p in fixes ==> OnlyRemovesImports(ItemsOf(texts[p]), ItemsOf(fixes[p](texts[p]))))
  }

  /**
   * The round on texts: scanning the new files gives an import graph in which nothing below the new
   * main spec is an old version, and every path to an updated spec has its counterpart.
   */
  lemma TextRoundIsCorrect(texts: Texts, main: Path, fixed: seq<Path>, fixes: map<Path, TextFix>, names: Naming,
                           sorted: seq<Path>, texts': Texts)
    requires main in texts && TextRoundOk(texts, main, fixed, fixes, names, sorted)
    requires Rewritable(texts, fixes, names, sorted) && IsTextRound(texts, main, fixed, fixes, names, sorted, texts')
    ensures RoundCorrect(ImportGraph(DiskOf(texts)), ImportGraph(DiskOf(texts')), main, fixed, ItemFixes(texts, fixes).Keys,
                         names, sorted)
  {
    CopiedOnItems(texts, fixes, names, sorted, texts');
    CopiesAreCorrect(DiskOf(texts), main, fixed, ItemFixes(texts, fixes), names, sorted, DiskOf(texts'));
  }

  // ----- The IV copies -----

  function IvUpdated(text: string, dir: seq<string>, mapped: seq<Path>): string {
    Substitute(Statement(), ";", PrefixChosen(IvCopies.IV_PREFIX, Chosen(IvCopies.Copied(dir, mapped))), text)
  }

  /** Some document prints the text and spells its imports as whole statements. */
  ghost predicate WellStated(text: string) {
    exists ts, e :: WellFormed(ts, e) && StatementRewriter.Legible(ts, e) && AllStatements(ts) && Print(ts, e) == text
  }

  lemma IvUpdatedItems(text: string, dir: seq<string>, mapped: seq<Path>)
    requires WellStated(text)
    ensures ItemsOf(IvUpdated(text, dir, mapped)) == IvCopies.UpdateImports(ItemsOf(text), dir, mapped)
  {
    var ts, e :| WellFormed(ts, e) && StatementRewriter.Legible(ts, e) && AllStatements(ts) && Print(ts, e) == text;
    TextCopyUpdatesImports(ts, e, dir, mapped);
  }

  ghost predicate TextIvMade(texts: Texts, specs: seq<Path>, disable: TextFix, texts': Texts, p: Path) {
    && p in texts && IvCopies.IvPath(p) in texts'
    && texts'[IvCopies.IvPath(p)] == disable(IvUpdated(texts[p], p.dir, specs))
  }

  ghost predicate TextIvCopies(texts: Texts, specs: seq<Path>, disable: TextFix, texts': Texts) {
    && (forall p :: p in texts && !IvCopies.IsIvOf(specs, p) ==> p in texts' && texts'[p] == texts[p])
    && (forall q :: q in texts' ==> q in texts || IvCopies.IsIvOf(specs, q))
    && (forall p :: p in specs ==> TextIvMade(texts, specs, disable, texts', p))
  }

  /** Each spec's imports are whole statements, and disabling NONDET entries leaves what is imported. */
  ghost predicate Copyable(texts: Texts, specs: seq<Path>, disable: TextFix) {
    forall p :: p in specs ==>
      && p in texts && WellStated(texts[p])
      && ItemsOf(disable(IvUpdated(texts[p], p.dir, specs))) == ItemsOf(IvUpdated(texts[p], p.dir, specs))
  }

  lemma IvMadeOnItems(texts: Texts, specs: seq<Path>, disable: TextFix, texts': Texts, p: Path)
    requires Copyable(texts, specs, disable) && p in specs && TextIvMade(texts, specs, disable, texts', p)
    ensures IvCopies.SpecCopied(DiskOf(texts), specs, file => file, DiskOf(texts'), p)
  {
    IvUpdatedItems(texts[p], p.dir, specs);
  }

  lemma IvCopiesOnItems(texts: Texts, specs: seq<Path>, disable: TextFix, texts': Texts)
    requires Copyable(texts, specs, disable) && TextIvCopies(texts, specs, disable, texts')
    ensures IvCopies.CopiedSpecs(DiskOf(texts), specs, specs, file => file, DiskOf(texts'))
  {
    forall p | p in specs
      ensures IvCopies.SpecCopied(DiskOf(texts), specs, file => file, DiskOf(texts'), p)
    {
      assert TextIvMade(texts, specs, disable, texts', p);
      IvMadeOnItems(texts, specs, disable, texts', p);
    }
  }

  /** The copied texts import each other exactly as the originals do, and reach nothing else. */
  lemma TextCopiesAreIsomorphic(texts: Texts, root: Path, specs: seq<Path>, disable: TextFix, texts': Texts)
    requires IvCopies.ListsClosure(DiskOf(texts), root, specs) && IvCopies.UnprefixedNames(DiskOf(texts), specs)
    requires Copyable(texts, specs, disable) && TextIvCopies(texts, specs, disable, texts')
    ensures forall p :: p in specs ==>
      Get(ImportGraph(DiskOf(texts')), IvCopies.IvPath(p)) == IvCopies.IvPaths(Get(ImportGraph(DiskOf(texts)), p))
    ensures forall q :: Reaches(ImportGraph(DiskOf(texts')), IvCopies.IvPath(root), q) <==> IvCopies.IsIvOf(specs, q)
  {
    IvCopiesOnItems(texts, specs, disable, texts');
    IvCopies.CopiesAreIsomorphic(DiskOf(texts), root, specs, file => file, DiskOf(texts'));
    IvCopies.CopiesAreClosed(DiskOf(texts), root, specs, DiskOf(texts'));
  }
}
