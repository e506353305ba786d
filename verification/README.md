# Verification of the rewriting parts of `certora_autosetup`

A Dafny model of the parts of `certora_autosetup` that rewrite programs, specs and graphs and must
keep their meaning, with proofs of what they keep. The outside world (the prover, the compiler, the
disk, scheduling) appears as maps and as arbitrary functions. `dafny verify dfyconfig.toml` checks
everything.

Code that changes things step by step is a method with loops, or a class whose methods change its
fields, and is proved against a specification function. The main theorems are lemmas about those
functions and about whole runs.

## Map

| part | modules |
|---|---|
| strings, character classes, braces, optional values | `Text`, `Characters`, `Braces`, `Options` |
| harness planner: library API records, names | `HarnessModel`, `HarnessNames` |
| harness planner: collision mangling | `Mangling`, `MangleConvergence` |
| harness planner: wrappers and what they do | `HarnessPlan`, `WrapperSemantics` |
| harness planner: storage getters | `StorageReaders` |
| spec files, import graphs, import closure | `SpecFiles`, `Graphs`, `ImportClosure` |
| typechecker repair loop: one round, runs of rounds | `SpecGraph`, `TopologicalSort`, `RecursiveUpdate`, `RoundCorrectness`, `RoundNames`, `RepairRuns` |
| rewriting imports in texts | `ImportRewriter`, `StatementRewriter`, `ImportSpellings`, `ImportTexts`, `TextRounds` |
| rule ranges and rule disabling | `RuleRanges`, `RuleLines`, `RuleDocuments`, `RuleDisabling` |
| CVL import scanner | `ImportScanner`, `ImportCharacters` |
| IV summary copies | `IvCopies`, `NondetEntries` |
| follow-up job queue | `FollowUpJobs` |
| concurrent proxy detection | `ProxyDetection` |
| source mungers | `EmitMunger`, `EmitRewriter`, `SolidityComments`, `CodePatches`, `PatchFiles`, `BraceMatching` |
| breadcrumb display | `Breadcrumbs` |

## Where the code and its promises differ

- Mangling (`certora_autosetup/harnesser/plan.py:306-356`). The docstring says that every round
  lengthens a colliding name, so names separate. They do within the budget when no function has a
  storage receiver. With receivers, if no receiver suffix on a parameter list extends another one at an
  underscore, mangling succeeds if and only if no two entries ever meet with equal key and receiver
  (`MangleConvergence.SeparableReceiversConvergeIff`). When suffixes do extend each other the budget can
  run out although no two such entries ever meet: functions `f`, `f`, `f_X` with receivers `X`, `X_X`,
  `X_X_X` raise, and one more round would have been enough
  (`MangleConvergence.CompositeReceiversExhaustBudget`).
- Owned variables (`certora_autosetup/harnesser/plan.py:206-208`). Two storage types that become the
  same identifier, such as `A.B` and `A_B`, get the same state variable
  (`WrapperSemantics.OwnedVariablesCanCoincide`). A wrapper is faithful to every library function
  exactly when the type names of its storage parameters become different identifiers
  (`WrapperSemantics.FaithfulIffNamesDiffer`).
- The Kahn sort (`certora_autosetup/typechecker_loop.py:963-989`) runs on a list that can hold a spec
  twice and would emit such a spec twice if it had no import in the list. It never does: a spec occurs
  twice only as a fix that is also an ancestor of a fix, and then it imports something in the list.
- Breadcrumbs (`certora_autosetup/reporting/markdown_reporter.py:583-672`). The documentation promises
  more detail for the last call at a level. The code identifies a parent by its method name, so the last
  call of a parent is condensed when a later parent of the same name at the same depth has a call, too
  (`Breadcrumbs.LastCallCanBeCondensed`; `Breadcrumbs.ModesFollowTheForest` gives the exact condition).
- NONDET entries (`certora_autosetup/parsers/cvl_summary_parser.py:75-142`). The docstring says that an
  entry ends with a line containing `NONDET;`. The code requires the line to end with it, apart from
  white space, so a remark after it keeps the entry (`NondetEntries.RemarkHidesNondet`); the model
  follows the code.
- Emit statements (`certora_autosetup/setup/emit_munger.py:94-150`). A statement on one line is commented
  out by a line comment, and the rest of its line with it. So munging comments out the emit statements and
  nothing else if and only if every statement that is on one line ends its line
  (`SolidityComments.OnlyEmitsIffSingleEndsLine`). A statement with line breaks behind another one on its
  line loses the start of its comment to the line comment, and an emit on its later lines is left
  (`SolidityComments.LaterLinesAreLeft`); without that, no emit is left
  (`SolidityComments.MungedContractReads`).
- Overlapping `.code` accesses (`certora_autosetup/setup/auto_munges.py:435-457`). Descending order
  protects offsets only when the ranges are disjoint: of two nested accesses the inner one is replaced
  and the outer one is skipped as a mismatch (`CodePatches.NestedPatchIsSkipped`). For matching patches
  whose replacements change the ranges they overlap, none is skipped if and only if all are disjoint
  (`CodePatches.NothingSkippedIffDisjoint`).
- Rule ranges (`certora_autosetup/typechecker_loop.py:1243-1292`). After a `filtered` block, the body is
  found only if nothing but white space stands between the first line break after the block and the
  body; anything else there, such as a comment line, cuts the rule off after its filters
  (`RuleDocuments.ExtentIsExact`, `RuleDocuments.CommentCutsRuleOff`; `RuleDocuments.CommentedRuleIsCutOff` is
  an example).
- Later repair rounds (`certora_autosetup/typechecker_loop.py:183-200` and `1003-1020`). The docstring
  says that fixes are keyed by base names without round suffixes. They are keyed by the stem of the
  erroneous file and looked up by base name, so a fix reaches its spec if and only if the spec's name
  has no round suffix (`RepairRuns.FixReachesCopyIff`); the copy of an earlier copy stays unfixed
  (`RepairRuns.LaterFixIsLost`).
- Rewriting imports (`certora_autosetup/typechecker_loop.py:797-827`,
  `certora_autosetup/parsers/cvl_summary_parser.py:60-72`). The scanner finds imports that the regular
  expressions do not: without white space before the quote (`ImportRewriter.PackedImportIsMissed`), with
  escapes in the target, and for the IV copies with anything but white space before the semicolon. The
  rewritten text has the redirected targets if and only if every import that changes is spelled as the
  expression demands (`ImportRewriter.SubstitutionMeetsScanner`,
  `StatementRewriter.SubstitutionMeetsScanner`). Conversely the expressions can match inside comments
  and strings, which these results exclude.

## Model

| member | source | states |
|---|---|---|
| Mangling.GroupByKey | certora_autosetup/harnesser/plan.py:325-327 | Grouping lists, for every ABI key, exactly the indices with that key in order, and every key once. |
| Mangling.RenameGroup | certora_autosetup/harnesser/plan.py:333-351 | In one colliding group each wrapper gets its receiver suffix, or its position in the group as a numeral; nothing else changes. |
| Mangling.RenameColliding | certora_autosetup/harnesser/plan.py:324-351 | One pass renames exactly the wrappers whose key another wrapper shares, by the names before the pass, and reports whether there were any. |
| Mangling.MangleCollisions | certora_autosetup/harnesser/plan.py:306-356 | The rounds with the budget n + 1: the first collision-free state, or the error when the budget is used up; functions with one library receiver each, or none, are named after the receiver types or numbered. |
| Mangling.CollidesIffGroup | certora_autosetup/harnesser/plan.py:329-331 | A wrapper collides exactly when its group has more than one member. |
| Mangling.TagsAreNamed | certora_autosetup/harnesser/plan.py:287-356 | Functions with one receiver L.T, T a word, or none, whose names have no underscore but one at the end: mangling succeeds, an entry with a twin gets T, or its number among its twins, behind one underscore, and any other entry stays as it is. |
| Mangling.TwoReceiversJoined | certora_autosetup/harnesser/plan.py:333-338 | Two receivers L.S and L.T among other parameters give the suffix S_T. |
| HarnessNames.SanitizedIsJoined | certora_autosetup/harnesser/plan.py:66-68 | Words with gaps of any other characters between and around them become the words joined by single underscores. |
| HarnessNames.OwnTypeName | certora_autosetup/harnesser/plan.py:191-203 | A type L.T of the library L is named T. |
| HarnessNames.PlainTypeName | certora_autosetup/harnesser/plan.py:191-203 | A word is named by itself, in every library. |
| HarnessNames.ForeignTypeName | certora_autosetup/harnesser/plan.py:191-203 | A type M.T from elsewhere is named M_T. |
| HarnessNames.MappingTypeName | certora_autosetup/harnesser/plan.py:48-51 | A mapping is named by the word, its key type and its value type. |
| MangleConvergence.MangleSound | certora_autosetup/harnesser/plan.py:287-356 | Whenever mangling returns, all (name, parameter types) keys are pairwise distinct and entry i still has its call target, arguments, parameters and returns. |
| MangleConvergence.ClashRaises | certora_autosetup/harnesser/plan.py:324-356 | If two entries ever share key and receiver suffix, they stay equal in every round and mangling raises. |
| MangleConvergence.OneContinuation | certora_autosetup/harnesser/plan.py:297-303 | From one name, at most one of two suffixes that do not extend each other leads on toward any given later name. |
| MangleConvergence.LiveLosesOne | certora_autosetup/harnesser/plan.py:324-351 | When no receiver suffix extends another: a collision toward a given name is preceded by one, and the round in between permanently drops a wrapper off that name's chain. |
| MangleConvergence.ChainIsLong | certora_autosetup/harnesser/plan.py:324-351 | A collision after k rounds needs k + 2 wrappers on its chain at the start. |
| MangleConvergence.CollisionFreeAfter | certora_autosetup/harnesser/plan.py:324-351 | When no receiver suffix on a parameter list extends another and no clash has occurred, n - 1 rounds leave no collision. |
| MangleConvergence.NoReceiversConverges | certora_autosetup/harnesser/plan.py:319-356 | Without storage receivers, for arbitrary names, at most n - 1 rounds rename anything and the error cannot occur. |
| MangleConvergence.SeparableReceiversConvergeIff | certora_autosetup/harnesser/plan.py:319-356 | When no receiver suffix on a parameter list extends another at an underscore, mangling succeeds if and only if no two entries ever meet with equal key and receiver. |
| MangleConvergence.UnrelatedOverloadsConverge | certora_autosetup/harnesser/plan.py:319-356 | A condition on the input alone under which mangling succeeds: of two overloads with equal types and receivers, neither name is the other one followed by copies of the receiver suffix. |
| MangleConvergence.ReceiverSuffixIsNamed | certora_autosetup/harnesser/plan.py:333-338 | The joined suffix of any number of receivers is not empty, starts with no digit and ends with no underscore, if the types' identifiers are not empty and start with no digit. |
| MangleConvergence.CompositeReceiversExhaustBudget | certora_autosetup/harnesser/plan.py:319-356 | Three functions whose suffixes extend each other exhaust the budget without any clash, although the next round is collision-free. |
| HarnessPlan.SplitParams | certora_autosetup/harnesser/plan.py:242-259 | Storage parameters become state variables, the others are exposed in order, and every call argument is in its parameter's position. |
| HarnessPlan.BuildWrapper | certora_autosetup/harnesser/plan.py:238-284 | The wrapper of a function: exposed parameters, arguments, returns with the synthesized one for a void function with one memory argument, and widened mutability. |
| HarnessPlan.WrapperIsAsGiven | certora_autosetup/harnesser/plan.py:171-284 | The wrapper from the function's record alone: the call target, all parameters but the storage ones with references in memory, results, the returned memory parameter, view for a pure function with a storage parameter, and for each L.T argument the variable _certoraStore_T. |
| HarnessPlan.CollectOwned | certora_autosetup/harnesser/plan.py:480-488 | One state variable for each storage type that some function uses, and none else. |
| HarnessPlan.BuildWrappers | certora_autosetup/harnesser/plan.py:490-504 | Every function gets its wrapper under its escaped name. |
| HarnessPlan.PlanWrappers | certora_autosetup/harnesser/plan.py:480-505 | If the plan is made, entry i is what the record of function i demands, up to its name, and all ABI keys differ; it is made without storage receivers, and where receiver types or numbers tell the functions apart, with the names they give. |
| HarnessPlan.MangledStillWrap | certora_autosetup/harnesser/plan.py:490-505 | Mangling keeps what each wrapper calls and with which arguments. |
| WrapperSemantics.WrapperFaithful | certora_autosetup/harnesser/plan.py:211-284 | For every interpretation of the library as a state transformer, running the wrapper on harness state gives the library's post-storage and return values, or the mutated array of a void function with one memory argument, and touches no other state. |
| WrapperSemantics.ScopeReads | certora_autosetup/harnesser/render.py:55-73 | Each argument of the rendered call reads what the library function is to be given at that position. |
| WrapperSemantics.NamesAreApart | certora_autosetup/harnesser/plan.py:206-208 | With distinct parameter names, none with the reserved prefix, storage types with different identifiers give each argument its own name. |
| WrapperSemantics.SharedVariableBreaks | certora_autosetup/harnesser/plan.py:480-488 | When two storage parameters share a variable, there are a library function, a state and arguments for which no effect of the wrapper is the library's. |
| WrapperSemantics.FaithfulIffNamesDiffer | certora_autosetup/harnesser/plan.py:206-284 | A wrapper is faithful for every interpretation, state and arguments if and only if its storage parameters' identifiers are pairwise different. |
| WrapperSemantics.OwnedVariablesCanCoincide | certora_autosetup/harnesser/plan.py:191-208 | Two different storage types can share one state variable. |
| StorageReaders.ReaderWalk.WalkMember | certora_autosetup/harnesser/plan.py:359-419 | The capped accumulating walk appends exactly the plain enumeration of the member's leaves, cut off at 24 in all. |
| StorageReaders.ReaderWalk.WalkChildren | certora_autosetup/harnesser/plan.py:376-386 | The same for the members of a struct, in order. |
| StorageReaders.DeriveReaders | certora_autosetup/harnesser/plan.py:422-450 | All getters: of the leaves of all owned variables in order, the first 24. |
| StorageReaders.LeavesAreExactlyTypedPaths | certora_autosetup/harnesser/plan.py:359-419 | A getter is enumerated exactly when it reads a well-typed path of depth at most 4 to a value leaf, with that leaf's type. |
| StorageReaders.KeysFollowLookups | certora_autosetup/harnesser/plan.py:388-406 | The access expression of a path uses key0, key1, ... once each in order, and the parameters are these keys with the types of the lookups. |
| StorageReaders.GetterOfPath | certora_autosetup/harnesser/plan.py:388-450 | A getter of a variable of type L.T for a path of members and lookups is named T_member_..., reads var.member... with [key0], [key1], ... for the lookups, has these keys as parameters, and memory locations exactly for bytes, string and array types. |
| StorageReaders.KeyNamesDistinct | certora_autosetup/harnesser/plan.py:390 | Different keys have different names. |
| SpecFiles.ParseDirectImports | certora_autosetup/parsers/spec_imports.py:73-83 | The direct imports are the import targets that exist on disk, resolved against the file's directory, in order; an import by steps up and names down, or from the root, is exactly the file there, if it exists. |
| SpecFiles.ResolvesInTurn | certora_autosetup/parsers/spec_imports.py:75-79 | Resolving one relative path behind another is resolving them in turn. |
| SpecFiles.NameGoesDown | certora_autosetup/parsers/spec_imports.py:77 | A name other than one or two dots goes down. |
| SpecFiles.UpStaysAtRoot | certora_autosetup/parsers/spec_imports.py:77 | A step up from the root stays there. |
| SpecFiles.UpsAndDowns | certora_autosetup/parsers/spec_imports.py:75-79 | As many steps up as a directory lies below another one, and then names, lead below the other one. |
| ImportTexts.TargetAcross | certora_autosetup/parsers/spec_imports.py:75-79 | The same for a target text such as ../../sub/name, in any directory. |
| ImportTexts.TargetFromRoot | certora_autosetup/parsers/spec_imports.py:75-79 | A target text that starts with a slash is resolved from the root. |
| ImportClosure.ParseImports | certora_autosetup/parsers/spec_imports.py:61-103 | The recursive imports are, without repetition, exactly the specs other than the root that the import graph reaches; the search ends on cycles. |
| SpecGraph.BuildSpecDependencyGraph | certora_autosetup/typechecker_loop.py:605-650 | The reverse graph is exactly the transpose of the forward graph, which holds exactly the edges reachable from the root, each once. |
| SpecGraph.FindAllAncestors | certora_autosetup/typechecker_loop.py:652-679 | The ancestors are, without repetition, exactly the specs with a non-empty reverse path from the spec, cycles included. |
| SpecGraph.TransposeReaches | certora_autosetup/typechecker_loop.py:605-679 | Non-empty paths in the two graphs correspond, reversed. |
| SpecGraph.AncestorsAreImporters | certora_autosetup/typechecker_loop.py:605-679 | An ancestor is exactly a spec reachable from the root that has a non-empty import path to the target. |
| TopologicalSort.Sort | certora_autosetup/typechecker_loop.py:963-989 | The Kahn sort, on a list that may hold copies, emits each spec at most once, every spec after its imports in the list, and leaves only specs that wait for one another. |
| TopologicalSort.ZeroAtLastCopy | certora_autosetup/typechecker_loop.py:980-987 | With k copies of a spec in the list, its in-degree becomes zero exactly at the last copy and never before. |
| TopologicalSort.EmittedAvoidsCycles | certora_autosetup/typechecker_loop.py:963-989 | No emitted spec reaches an import cycle inside the list. |
| TopologicalSort.NotEmittedRunsIntoCycle | certora_autosetup/typechecker_loop.py:963-989 | Every spec that is not emitted reaches an import cycle inside the list. |
| TopologicalSort.SortedIffAvoidsCycles | certora_autosetup/typechecker_loop.py:963-989 | The sort emits exactly the specs that do not reach a cycle inside the list. |
| RecursiveUpdate.CopiesOfFixesWait | certora_autosetup/typechecker_loop.py:920-960 | A spec that is listed twice imports something in the list, so the sort never starts with it. |
| RecursiveUpdate.SpecsToUpdate | certora_autosetup/typechecker_loop.py:920-991 | The specs to update are main, the fixes and their importers below main, in import order, without those that run into a cycle. |
| RecursiveUpdate.UpdateImports | certora_autosetup/typechecker_loop.py:797-827 | Redirecting import items by file name, one update after another. |
| RecursiveUpdate.RewriteAt | certora_autosetup/typechecker_loop.py:797-827 | With fresh names the updates do not interfere: each import is redirected exactly by the update for its file name, with its directory kept. |
| RecursiveUpdate.SpecUpdater.CopySpec | certora_autosetup/typechecker_loop.py:1003-1050 | One spec in any round: the new file under the renamed base name holds the fixed or the redirected content, decided by the base name on record, and the base name is put on record for both; no other file changes. |
| RecursiveUpdate.SpecUpdater.CopySorted | certora_autosetup/typechecker_loop.py:1000-1056 | In any round with a right record: afterwards the disk is the old one plus one new file per sorted spec, each with its fixed or redirected content, and the record is extended by exactly these. |
| RoundCorrectness.GraphIsLifted | certora_autosetup/typechecker_loop.py:888-1064 | A copy imports the copies of what its original imports, or the originals where there is no copy; old files keep their imports. |
| RoundCorrectness.NewClosureIsClean | certora_autosetup/typechecker_loop.py:888-1064 | The new main's import closure contains no old version of any updated spec. |
| RoundCorrectness.PathsAreMirrored | certora_autosetup/typechecker_loop.py:888-1064 | Every old import path from main to an updated spec has a counterpart from the new main to its copy. |
| RoundCorrectness.EverythingIsSorted | certora_autosetup/typechecker_loop.py:963-991 | With acyclic imports the sort drops no spec to update. |
| RoundCorrectness.PerformRecursiveUpdate | certora_autosetup/typechecker_loop.py:888-1064 | A whole round in keep-intermediate mode, first or later: exactly the affected specs are copied, imports first; no old version is left in the new closure; import paths are mirrored; all other files stay. |
| RoundCorrectness.RoundIsCorrect | certora_autosetup/typechecker_loop.py:888-1064 | The same as a statement about the disks before and after a round. |
| RoundCorrectness.FixIsAppliedIff | certora_autosetup/typechecker_loop.py:1003-1020 | A fix that was made for a spec below main is applied to it if and only if the spec's stem is its own base name. |
| RepairRuns.StepKeeps | certora_autosetup/typechecker_loop.py:1066-1180 | Every round keeps what it needs: file names identify files, imports below main are acyclic, base names below main differ, and the record of base names is right. |
| RepairRuns.HandleRound | certora_autosetup/typechecker_loop.py:1123-1162 | Running a round from such a state is a step of the run, and the state after it is such a state. |
| RepairRuns.RunKeeps | certora_autosetup/typechecker_loop.py:1066-1180 | In every run of any number of rounds all this holds in every state. |
| RepairRuns.StaysAcyclic | certora_autosetup/typechecker_loop.py:888-1064 | A round makes no import cycle: each cycle below the new main comes from one below the old main. |
| RepairRuns.NoOldVersionReturns | certora_autosetup/typechecker_loop.py:888-1064 | In every run, a version that some round replaced is never again imported below main in a later state. |
| RepairRuns.RunChangesNoFile | certora_autosetup/typechecker_loop.py:1003-1056 | No file that exists in some state of a run is changed or removed later. |
| RepairRuns.FixReachesCopyIff | certora_autosetup/typechecker_loop.py:1003-1020 | A fix made for a spec below main reaches its copy if and only if the spec's name has no round suffix. |
| RepairRuns.LaterFixIsLost | certora_autosetup/typechecker_loop.py:1003-1040 | The copy of an earlier copy holds the redirected content, whatever fix was made for it. |
| RepairRuns.StemCases | certora_autosetup/typechecker_loop.py:200 | The stem of a file name is what stands before its last dot, if there is something on both sides of it, and else the whole name. |
| RepairRuns.ReverseRename | certora_autosetup/typechecker_loop.py:1128-1147 | The base name from a right record is the one from stripping the suffix, unless the name has a dot and what stands before it is on record. |
| ImportRewriter.SubstitutionRedirects | certora_autosetup/typechecker_loop.py:797-827 | On a document whose tokens are imports spelled with white space and plain targets, or hold no match, the regular-expression substitution prints the redirected tokens. |
| ImportRewriter.SubstitutionMeetsScanner | certora_autosetup/typechecker_loop.py:797-827 | After the substitution the scanner finds the redirected targets if and only if each import whose target changes has white space and a plain target. |
| ImportRewriter.PackedImportIsMissed | certora_autosetup/parsers/spec_imports.py:40-55 | An import without white space is found by the scanner and left as it is by every substitution. |
| ImportSpellings.ImportIsRenamed | certora_autosetup/typechecker_loop.py:809-827 | The text of an import, with any white space and directory: if its file name is the old one, it becomes the import of the new name in the same directory, and otherwise it stays. |
| ImportSpellings.ImportIsPrefixed | certora_autosetup/parsers/cvl_summary_parser.py:60-72 | The text of an import statement of a copied spec becomes the statement with iv_ before the file name; any other one stays. |
| StatementRewriter.SubstitutionRedirects | certora_autosetup/parsers/cvl_summary_parser.py:60-72 | The same for the expression that ends with a semicolon: it prints the redirected statements, without the white space before their semicolons. |
| StatementRewriter.SubstitutionMeetsScanner | certora_autosetup/parsers/cvl_summary_parser.py:60-72 | After it the scanner finds the redirected targets if and only if each import whose target changes is a plain statement with nothing but white space before its semicolon. |
| ImportTexts.TextUpdatesAreRewrites | certora_autosetup/typechecker_loop.py:797-827 | On a well-spelled text any list of file-name updates, applied one after the other, rewrites the scanned imports as the rounds do, and leaves a well-spelled text. |
| ImportTexts.CopyOfText | certora_autosetup/typechecker_loop.py:797-827 | So the text written for an importing spec has the imports that the model of its copy has. |
| ImportTexts.TextCopyUpdatesImports | certora_autosetup/parsers/cvl_summary_parser.py:60-72 | On a text of plain import statements the substitution redirects the scanned imports to the IV copies as the model does. |
| TextRounds.TextRoundIsCorrect | certora_autosetup/typechecker_loop.py:888-1064 | A round on texts: the import graphs that the scanner finds before and after satisfy the round's theorem, when the copied importing specs are well spelled. |
| TextRounds.TextCopiesAreIsomorphic | certora_autosetup/parsers/cvl_summary_parser.py:15-72 | The IV copies on texts: scanning them finds an import graph isomorphic to the originals', and closed. |
| RoundNames.StripUndoesRename | certora_autosetup/typechecker_loop.py:1123-1147 | Stripping the round suffix of a renamed spec gives its base name back, whatever the base name contains. |
| RoundNames.SuffixIff | certora_autosetup/typechecker_loop.py:1139-1144 | A text is a round suffix if and only if it is the word, digits, a dash and hexadecimal digits. |
| RoundNames.RoundNamesAreFresh | certora_autosetup/typechecker_loop.py:61-72 | If no file and no import ends with this round's suffix, the new names are fresh and differ for different base names. |
| RuleRanges.FindClose | certora_autosetup/typechecker_loop.py:1258-1268 | Counting braces finds the first line after which a brace was opened and all are closed. |
| RuleRanges.RangeEnd | certora_autosetup/typechecker_loop.py:1257-1291 | The end of a rule: the first close, or that of the block that starts on the next line that is not blank. |
| RuleRanges.ParseRuleRanges | certora_autosetup/typechecker_loop.py:1243-1292 | One range per line that starts a rule, in order, with the rule's name. |
| RuleLines.RuleNameIff | certora_autosetup/typechecker_loop.py:1250-1255 | A line starts a rule of a name if and only if it is white space, the keyword, white space and that name, which does not go on. |
| RuleLines.BlankIff | certora_autosetup/typechecker_loop.py:1271 | A line is skipped as blank if and only if it is all white space. |
| RuleLines.OpensIff | certora_autosetup/typechecker_loop.py:1273 | A line opens the body behind filters if and only if a brace is its first character that is no white space. |
| RuleDocuments.PlainCloses | certora_autosetup/typechecker_loop.py:1258-1268 | A brace-free head, a balanced block and a brace-free rest of the line are closed exactly after their last line. |
| RuleDocuments.ExtentIsExact | certora_autosetup/typechecker_loop.py:1257-1291 | The extent of a rule with or without filters is exactly its lines if and only if its body follows its filters. |
| RuleDocuments.CommentCutsRuleOff | certora_autosetup/typechecker_loop.py:1268-1291 | A brace-free line that does not start with white space, between the filters and the body of a rule, cuts the rule off, for all filters and bodies. |
| RuleDisabling.ParsedRangesAreRules | certora_autosetup/typechecker_loop.py:1243-1292 | On a spec printed as top-level items the parsed ranges are exactly the rules with their lines. |
| RuleDisabling.RulesToDisable | certora_autosetup/typechecker_loop.py:1323-1329 | The rules to disable are those that are the first range around some error line. |
| RuleDisabling.DisableRules | certora_autosetup/typechecker_loop.py:1320-1341 | Exactly the lines in these ranges that are not comments get the prefix, once; the result says whether there was such a rule. |
| RuleLines.CommentedOutIs | certora_autosetup/typechecker_loop.py:1336-1338 | A line whose first characters that are no white space are two slashes stays, any other line gets the text of the tool in front. |
| RuleDisabling.DisablingIsExact | certora_autosetup/typechecker_loop.py:1320-1341 | On printed specs, disabling comments out precisely the rules with errors, leaves all other items alone, and what parses afterwards are exactly the other rules on the same lines. |
| ImportScanner.ImportsInCvl | certora_autosetup/parsers/spec_imports.py:8-58 | The index-driven lexer computes the scanning function; it ends on every text. |
| ImportScanner.ScanPrinted | certora_autosetup/parsers/spec_imports.py:8-58 | Scanning a printed token sequence gives exactly the unescaped import targets in order, and nothing from strings or comments. |
| ImportScanner.EveryTextIsADocument | certora_autosetup/parsers/spec_imports.py:8-58 | Every text is the print of some token sequence, possibly with an unfinished token at its end. |
| ImportScanner.ScannerIsExact | certora_autosetup/parsers/spec_imports.py:8-58 | So on every text the scanner returns the import targets of a token sequence that prints it. |
| ImportCharacters.ImportIsFound | certora_autosetup/parsers/spec_imports.py:39-56 | The keyword, any blanks, tabs, carriage returns and line breaks, and a quoted target without quotes and backslashes: the target is found, and scanning goes on behind it. |
| ImportCharacters.OtherCharacterIsNoImport | certora_autosetup/parsers/spec_imports.py:41-46 | With any other character before the quote, or none behind the keyword, there is no import there. |
| ImportCharacters.IdentifierIsNoImport | certora_autosetup/parsers/spec_imports.py:39-42 | Behind a letter, digit or underscore the keyword is no import. |
| ImportCharacters.OtherCharacterIsPassed | certora_autosetup/parsers/spec_imports.py:39-57 | Behind any other character that opens no string or comment a keyword may follow. |
| IvCopies.CreateIvSummaryCopies | certora_autosetup/parsers/cvl_summary_parser.py:15-72 | The closure is copied under prefixed names, nothing else changes, and the copies' import graph is isomorphic to the closure's and closed. |
| IvCopies.IvInjective | certora_autosetup/parsers/cvl_summary_parser.py:33-36 | Different originals have different copies. |
| IvCopies.UpdatedImport | certora_autosetup/parsers/cvl_summary_parser.py:60-72 | An import that resolves to a copied spec is redirected to that spec's copy. |
| IvCopies.CopiesAreIsomorphic | certora_autosetup/parsers/cvl_summary_parser.py:15-72 | The imports of a copy are, in order, the copies of its original's imports. |
| IvCopies.CopiesAreClosed | certora_autosetup/parsers/cvl_summary_parser.py:15-72 | Following imports from the copied root reaches exactly the copies, never an original. |
| NondetEntries.CommentOutNondetEntries | certora_autosetup/parsers/cvl_summary_parser.py:75-142 | The line loop computes the specification function, which the rows below describe. |
| NondetEntries.LinesStay | certora_autosetup/parsers/cvl_summary_parser.py:75-142 | For every text the line count stays and every line is its input line or that line with the prefix. |
| NondetEntries.RestoringUndoes | certora_autosetup/parsers/cvl_summary_parser.py:75-142 | Dropping the prefix restores every line that did not have it before. |
| NondetEntries.ExactlyNondetIsDisabled | certora_autosetup/parsers/cvl_summary_parser.py:75-142 | On specs with methods blocks, exactly the lines of the entries whose last line has NONDET; at its end, apart from white space, get the prefix. |
| NondetEntries.NondetLineIsDisabled | certora_autosetup/parsers/cvl_summary_parser.py:113-137 | An entry whose last line is any text with NONDET; and white space behind it has all its lines prefixed. |
| NondetEntries.OtherLinePasses | certora_autosetup/parsers/cvl_summary_parser.py:113-140 | An entry whose last line ends with a semicolon that NONDET does not stand before passes unchanged. |
| NondetEntries.RemarkHidesNondet | certora_autosetup/parsers/cvl_summary_parser.py:119-137 | An entry in one line that holds NONDET; and goes on with a remark stays as it is. |
| NondetEntries.OtherPasses | certora_autosetup/parsers/cvl_summary_parser.py:115-140 | Another entry passes unchanged, even when a later line of it looks like the start of an entry. |
| NondetEntries.DisablingIsIdempotent | certora_autosetup/parsers/cvl_summary_parser.py:75-142 | A second pass changes nothing. |
| FollowUpJobs.JobCallbacks.CreateFollowUps | certora_autosetup/conf_runner/callbacks.py:137-204 | One job per wanted rule, narrowed to its methods. |
| FollowUpJobs.JobCallbacks.OnJobComplete | certora_autosetup/conf_runner/callbacks.py:65-135 | The result is recorded and exactly the follow-up jobs are queued. |
| FollowUpJobs.JobsAreForRules | certora_autosetup/conf_runner/callbacks.py:137-312 | Which results cause which jobs: with the setting present and not true, one job with the setting on for each rule that failed; otherwise, for a job that is no retry, one retry for each rule that timed out or is unknown, if a rule other than the static check came to a result; in the order of the results, each on the methods reported for its rule. |
| FollowUpJobs.NewJobsLoseEnergy | certora_autosetup/conf_runner/callbacks.py:99-312 | Every spawned job strictly lowers (multi-assert eligible) + (phase lacks the retry mark). |
| FollowUpJobs.SpawnDepthAtMostTwo | certora_autosetup/conf_runner/callbacks.py:99-312 | A chain of spawned jobs has at most three jobs. |
| FollowUpJobs.AtMostOneKind | certora_autosetup/conf_runner/callbacks.py:99-118 | A completed job causes multi-assert jobs or retries, never both, so at most as many jobs as rules. |
| FollowUpJobs.ProcessQueue | certora_autosetup/utils/cloud_runner.py:528-576 | For every prover and every order of taking jobs, the queue empties, and n initial jobs with at most R rules per result cause at most n(1 + R + R^2) runs. |
| ProxyDetection.RunsKeepInv | certora_autosetup/setup/call_resolution.py:406-527 | Every reachable state of every interleaving satisfies the invariant: outside the lock the published extensions are the last-wins map of all recorded mappings, mapped implementations are in the files before they are recorded, and only scanned contracts have tasks. |
| ProxyDetection.RunsAreSafe | certora_autosetup/setup/call_resolution.py:406-527 | In every reachable state: extensions agree with the mappings when the lock is free, implementations are in the files, no contract is scanned twice, and at most one task is in the critical section. |
| ProxyDetection.ScanCoversFiles | certora_autosetup/setup/call_resolution.py:404-422 | From a scan on, exactly the contracts in the configuration's files that are no libraries have tasks. |
| ProxyDetection.DetectedIsPublished | certora_autosetup/setup/call_resolution.py:446-527 | When all tasks have finished, every contract that was found to be a proxy with compiled implementations is published with these. |
| ProxyDetection.ExtensionsAreDetected | certora_autosetup/setup/call_resolution.py:446-527 | And the extensions hold nothing but implementations that were detected for a contract of that name, whose files are in the configuration. |
| ProxyDetection.RecordsAreVerdicts | certora_autosetup/setup/call_resolution.py:468-486 | A contract is on record if and only if a detector has looked at it. |
| ProxyDetection.NoUpdateIsLost | certora_autosetup/setup/call_resolution.py:446-527 | When all tasks have finished, a name has extensions exactly when some task published it, and then with implementations that a task published. |
| ProxyDetection.OutcomeIsIndependentOfOrder | certora_autosetup/setup/call_resolution.py:406-527 | Two finished runs with the same verdicts and one proxy per name have the same extensions. |
| EmitMunger.MungeIsIdempotent | certora_autosetup/setup/emit_munger.py:54-150 | Munging munged text changes nothing, and the emit statements found in it are those of the input, one by one. |
| EmitMunger.SecondPass | certora_autosetup/setup/emit_munger.py:54-150 | The same from any point of a line, whatever markers the line already holds. |
| EmitMunger.NoNewEmit | certora_autosetup/setup/emit_munger.py:54-74 | Munging creates no emit statement. |
| EmitMunger.UnmarkUndoesMunge | certora_autosetup/setup/emit_munger.py:94-150 | Deleting the inserted markers gives the input back, for every text without markers. |
| EmitMunger.MungeOnlyInserts | certora_autosetup/setup/emit_munger.py:94-150 | For every text, with markers or not, the output is the input with pieces inserted: there is a list of kept and inserted pieces that joins to the output, and whose kept pieces join to the input. |
| SolidityComments.MungedContractReads | certora_autosetup/setup/emit_munger.py:94-150 | Read without its comments, a munged contract is the input with each statement blanked, and with the rest of the line behind a statement on one line; no emit statement is left. |
| SolidityComments.OnlyEmitsIffSingleEndsLine | certora_autosetup/setup/emit_munger.py:94-150 | The emit statements and nothing else are commented out, if and only if each statement that is on one line ends its line. |
| SolidityComments.LaterLinesAreLeft | certora_autosetup/setup/emit_munger.py:112-144 | A statement with line breaks behind another one on its line: an emit on its later lines is left. |
| EmitRewriter.FindEmitStatements | certora_autosetup/setup/emit_munger.py:54-74 | The statements found are in order and apart, and none starts between them. |
| EmitRewriter.MatchesAtForm | certora_autosetup/setup/emit_munger.py:65-72 | A statement starts exactly where emit, white space, other characters than semicolons, and a semicolon come, not inside an identifier, and it ends with that semicolon. |
| EmitRewriter.Munger.IsAlreadyMunged | certora_autosetup/setup/emit_munger.py:76-92 | A statement counts as munged exactly when the marker is on its line before it. |
| EmitRewriter.Munger.MungeStatement | certora_autosetup/setup/emit_munger.py:112-144 | Inserting at one statement extends the munged part of the text to the left and counts the insertion. |
| EmitRewriter.Munger.MungeEmitStatements | certora_autosetup/setup/emit_munger.py:94-150 | Inserting by offsets from the last statement to the first gives the same text as munging from left to right. |
| BraceMatching.FindEndBraceAfter | certora_autosetup/setup/auto_munges.py:50-74 | The result closes the first block from the position on; -1 exactly when there is no brace or its block never ends. |
| BraceMatching.BlockEndsOnce | certora_autosetup/setup/auto_munges.py:50-74 | A block has only one end, so the result is the only one possible. |
| CodePatches.DescendingStacks | certora_autosetup/setup/auto_munges.py:435-437 | Sorting disjoint patches by descending offset keeps all of them, each at its offset, and each one ends before the previous one starts. |
| CodePatches.DescendingKeepsTies | certora_autosetup/setup/auto_munges.py:435-437 | Sorting keeps the order of patches at the same offset. |
| CodePatches.PatchInContext | certora_autosetup/setup/auto_munges.py:440-457 | A patch replaces its original in its place and keeps the text around it; with another text in its place it changes nothing. |
| CodePatches.DescendingIsSimultaneous | certora_autosetup/setup/auto_munges.py:435-457 | Applying disjoint patches one at a time in descending order substitutes all matching ones at once in the original text, and skips exactly those that do not match it. |
| CodePatches.NothingSkippedIffDisjoint | certora_autosetup/setup/auto_munges.py:435-457 | For matching patches of which overlapping ones leave a difference in each other's range, none is skipped in descending order if and only if they are disjoint. |
| CodePatches.NestedPatchIsSkipped | certora_autosetup/setup/auto_munges.py:440-457 | Of two nested accesses, both matching, only the inner one is replaced. |
| PatchFiles.GroupByFile | certora_autosetup/setup/auto_munges.py:418-424 | Files in the order of their first patch, each with its patches in order. |
| PatchFiles.ApplyPatches | certora_autosetup/setup/auto_munges.py:439-457 | The loop applies each patch that matches the current text and collects the others. |
| PatchFiles.PatchedIsSubstituted | certora_autosetup/setup/auto_munges.py:435-461 | With disjoint patches a file's new text is the injection applied to the simultaneous substitution. |
| PatchFiles.SourceTree.PatchFile | certora_autosetup/setup/auto_munges.py:429-465 | One file is backed up before it is written and only it changes, also when writing fails halfway. |
| PatchFiles.SourceTree.ApplyCodeAccessPatches | certora_autosetup/setup/auto_munges.py:426-479 | Success exactly when no file fails, and then every file has its patched text and no other changed; otherwise the whole file map is as before. |
| Breadcrumbs.HasSubcalls | certora_autosetup/reporting/markdown_reporter.py:601-624 | The forward scan from a call to its return. |
| Breadcrumbs.ProcessBreadcrumbs | certora_autosetup/reporting/markdown_reporter.py:583-672 | The three passes give every crumb the mode of the specification. |
| Breadcrumbs.KeyIsParent | certora_autosetup/reporting/markdown_reporter.py:674-683 | On a printed trace the context key of a call is its parent's depth and name, or root. |
| Breadcrumbs.ModesFollowTheForest | certora_autosetup/reporting/markdown_reporter.py:601-657 | A call is shown in full exactly when its tree node has no child call; any other call is medium exactly when no later call at its depth has a parent of the same name, and then it is its parent's last call. |
| Breadcrumbs.StepsFollowTheForest | certora_autosetup/reporting/markdown_reporter.py:658-671 | Returns are condensed; of the steps of a call exactly the one with nothing behind it in its call is shown in full. |
| Breadcrumbs.LastCallCanBeCondensed | certora_autosetup/reporting/markdown_reporter.py:590-598 | The last call of a parent can be condensed. |

## Left out

- Harness planner: which functions are skipped (`_classify`), pragma and import lines, rendering of the harness text, and the plan hash; `escape_reserved` is an arbitrary function on names.
- WrapperSemantics.WrapperFaithful: runs the wrapper as calls on named values; Solidity's evaluation, gas, reverts and ABI encoding are not modelled.
- Text: characters are ASCII, and offsets count characters; Unicode, and byte offsets in non-ASCII files, are not modelled.
- ImportTexts.CopyOfText: for texts without an escape or a regular-expression match in a comment, a string or an unfinished last token; what such a match rewrites is not described.
- ImportTexts.ItemOf: a target is split at its last slash. That the path library drops a leading `./` and doubled slashes when it prints a redirected target of an IV copy, and how it names a target that ends in a slash, is not modelled.
- SpecFiles: paths are directories and names with `..` resolved; symbolic links are not modelled.
- ImportClosure.ParseImports: starts from a path that is already resolved.
- RecursiveUpdate.UpdateImports: works on the import items of a spec; `ImportTexts` and `TextRounds` say for which texts the rewritten text has these items.
- RoundCorrectness.PerformRecursiveUpdate: keep-intermediate mode, acyclic imports, unique file names, different base names below main, fixes found below main of which none imports another. In-place updates, and a fixed spec whose imports should be redirected too, are not combined by the code (`certora_autosetup/typechecker_loop.py:1012`), and are not claimed.
- RoundCorrectness.RoundIsCorrect: the update callbacks are arbitrary functions that add no import; the parsing of typechecker messages that chooses them is not modelled.
- RepairRuns.NoOldVersionReturns: that the fixes of every round are found below main and that no file carries the round's random suffix is assumed of each round; the number of rounds is not bounded, and that the errors run out is not claimed.
- Configurations: copying a configuration so that it points to the new spec is not modelled.
- RuleDisabling.DisableRules: the regular expression on error messages and the search for the spec file are replaced by the list of error lines; the order of log messages is not modelled.
- RuleDisabling.ParsedRangesAreRules: braces in strings and comments count like any other, as they do in the code; items whose braces are unbalanced are not covered.
- IvCopies.CreateIvSummaryCopies: works on import items (`TextRounds.TextCopiesAreIsomorphic` is the statement about texts); the NONDET step is an arbitrary function that keeps imports; files without names that start with the prefix are required, since a copy could otherwise overwrite an original.
- NondetEntries.ExactlyNondetIsDisabled: each line of an entry has balanced braces, because the code does not count braces on the later lines of a disabled entry.
- FollowUpJobs.ProcessQueue: several workers are modelled as an arbitrary order of taking jobs; a job carries its configuration instead of re-reading it from a file, so two jobs that write the same file name do not interfere in the model. Statistics and reports are not modelled.
- ProxyDetection.RunsAreSafe: the configuration starts without contract extensions, and no task is cancelled or raises while it holds the lock.
- ProxyDetection.NoUpdateIsLost: the linker, the dispatcher and the prover only ever add files; that call resolution converges is not claimed.
- EmitMunger.UnmarkUndoesMunge: for texts without markers, since those of the input cannot be told from inserted ones; `EmitMunger.MungeOnlyInserts` covers every text.
- SolidityComments.OnlyEmitsIffSingleEndsLine: for texts without quotes and comment delimiters and without a slash directly before an emit.
- EmitRewriter.Munger.MungeEmitStatements: reading and writing files, dry runs and logging are left out.
- PatchFiles.SourceTree.ApplyCodeAccessPatches: writing the backups back is assumed to succeed, two spellings of one path are two files, and injecting the loadCode function (`certora_autosetup/setup/auto_munges.py:113-155`) is an arbitrary function that may fail.
- Reverting patches (`certora_autosetup/setup/auto_munges.py:492`): it looks up offsets of the unpatched text in the patched text, so no round trip is claimed.
- Detecting `.code` accesses in the syntax tree and finding the contract around an offset: not modelled.
- Breadcrumbs.ProcessBreadcrumbs: crumbs have the kinds call, return and other; types that merely contain these words are classed by the first match. The formatting of each mode is not modelled.
- Error-message expressions, rounding requalification callbacks, build-system detection, command lines and report texts: not modelled.
