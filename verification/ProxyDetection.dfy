/**
 * Concurrent proxy detection during call resolution: one task per scanned contract, sharing the
 * configuration under a lock. Between any two steps of a task, other tasks and the surrounding phase
 * may take steps.
 */
module ProxyDetection {

  datatype Handle = Handle(name: string, file: string)

  type Extensions = map<string, seq<string>>

  datatype Mapping = Mapping(proxy: string, implementations: seq<string>)

  /** The detector's verdict on one contract; without a detector there is none, and no record. */
  datatype Verdict = NoDetector | SearchFailed | NotProxy | Proxy(implementations: seq<string>)

  /** Where a detection task stands. */
  datatype Task =
    | Analyzing
    | Waiting(implementations: seq<string>)
    | FilesAdded(implementations: seq<string>)
    | Recorded(implementations: seq<string>)
    | Merged(implementations: seq<string>, merged: Extensions)
    | Published(implementations: seq<string>)
    | NoProxy
    | Aborted

  datatype Lock = Free | HeldBy(holder: Handle)

  datatype State = State(
    files: set<Handle>,
    extensions: Extensions,
    scanned: set<Handle>,
    mappings: seq<Mapping>,
    records: seq<Handle>,
    tasks: map<Handle, Task>,
    lock: Lock)

  /** The surrounding project: the compiled build index and which contracts are libraries. */
  datatype Project = Project(index: map<string, Handle>, libraries: set<string>)

  // ----- Steps -----

  predicate Finished(t: Task) {
    t.Published? || t.NoProxy? || t.Aborted?
  }

  predicate InCriticalSection(t: Task) {
    t.FilesAdded? || t.Recorded? || t.Merged?
  }

  function Merge(mappings: seq<Mapping>): Extensions {
    if mappings == [] then map[]
    else
      var last := mappings[|mappings| - 1];
      Merge(mappings[..|mappings| - 1])[last.proxy := last.implementations]
  }

  predicate Compiled(p: Project, implementations: seq<string>) {
    forall i :: 0 <= i < |implementations| ==> implementations[i] in p.index
  }

  ghost predicate Init(s: State) {
    && s.extensions == map[] && s.scanned == {} && s.mappings == [] && s.records == []
    && s.tasks == map[] && s.lock == Free
  }

  /** The linker, the dispatcher and the summaries only ever add files to the configuration. */
  ghost predicate OthersAddFiles(s: State, s': State) {
    s.files <= s'.files && s' == s.(files := s'.files)
  }

  /** A scan starts once all earlier tasks have finished, on the contracts not scanned before. */
  ghost predicate StartScan(p: Project, s: State, s': State) {
    && (forall h :: h in s.tasks ==> Finished(s.tasks[h]))
    && s' == s.(scanned := s.scanned + s.files,
                tasks := map h | h in s.tasks.Keys + s.files && (h in s.tasks || (h !in s.scanned && h.name !in p.libraries)) ::
                           if h in s.files && h !in s.scanned && h.name !in p.libraries then Analyzing else s.tasks[h])
  }

  function AfterVerdict(p: Project, v: Verdict): Task {
    match v
    case NoDetector => NoProxy
    case SearchFailed => NoProxy
    case NotProxy => NoProxy
    case Proxy(implementations) => if Compiled(p, implementations) then Waiting(implementations) else Aborted
  }

  ghost predicate Analyze(p: Project, h: Handle, v: Verdict, s: State, s': State) {
    && h in s.tasks && s.tasks[h] == Analyzing
    && s' == s.(records := if v == NoDetector then s.records else s.records + [h],
                tasks := s.tasks[h := AfterVerdict(p, v)])
  }

  ghost predicate AcquireAndAddFiles(p: Project, h: Handle, s: State, s': State) {
    && h in s.tasks && s.tasks[h].Waiting? && s.lock == Free
    && Compiled(p, s.tasks[h].implementations)
    && s' == s.(lock := HeldBy(h), tasks := s.tasks[h := FilesAdded(s.tasks[h].implementations)],
                files := s.files + Resolved(p, s.tasks[h].implementations))
  }

  function Resolved(p: Project, implementations: seq<string>): set<Handle>
    requires Compiled(p, implementations)
  {
    set i | 0 <= i < |implementations| :: p.index[implementations[i]]
  }

  ghost predicate Record(h: Handle, s: State, s': State) {
    && h in s.tasks && s.tasks[h].FilesAdded?
    && s' == s.(mappings := s.mappings + [Mapping(h.name, s.tasks[h].implementations)],
                tasks := s.tasks[h := Recorded(s.tasks[h].implementations)])
  }

  ghost predicate ComputeMerged(h: Handle, s: State, s': State) {
    && h in s.tasks && s.tasks[h].Recorded?
    && s' == s.(tasks := s.tasks[h := Merged(s.tasks[h].implementations, Merge(s.mappings))])
  }

  ghost predicate WriteAndRelease(h: Handle, s: State, s': State) {
    && h in s.tasks && s.tasks[h].Merged?
    && s' == s.(extensions := s.tasks[h].merged, lock := Free, tasks := s.tasks[h := Published(s.tasks[h].implementations)])
  }

  datatype Action =
    | AddFiles
    | Scan
    | Verdicts(h: Handle, v: Verdict)
    | Lock(h: Handle)
    | Note(h: Handle)
    | Combine(h: Handle)
    | Write(h: Handle)

  ghost predicate Next(p: Project, a: Action, s: State, s': State) {
    match a
    case AddFiles => OthersAddFiles(s, s')
    case Scan => StartScan(p, s, s')
    case Verdicts(h, v) => Analyze(p, h, v, s, s')
    case Lock(h) => AcquireAndAddFiles(p, h, s, s')
    case Note(h) => Record(h, s, s')
    case Combine(h) => ComputeMerged(h, s, s')
    case Write(h) => WriteAndRelease(h, s, s')
  }

  // ----- The invariant -----

  /** Mutual exclusion: exactly the holder of the lock is in its critical section. */
  ghost predicate LockInv(s: State) {
    forall h :: h in s.tasks ==> (InCriticalSection(s.tasks[h]) <==> s.lock == HeldBy(h))
  }

  /** The published extensions are the last-wins map of all mappings but those of the lock holder. */
  ghost predicate ExtensionsInv(s: State) {
    match s.lock
    case Free => s.extensions == Merge(s.mappings)
    case HeldBy(h) =>
      && h in s.tasks
      && match s.tasks[h] {
           case FilesAdded(_) => s.extensions == Merge(s.mappings)
           case Recorded(_) => true
           case Merged(_, merged) => merged == Merge(s.mappings)
           case _ => false
         }
  }

  ghost predicate InFiles(p: Project, s: State, implementations: seq<string>) {
    Compiled(p, implementations) && Resolved(p, implementations) <= s.files
  }

  /** Implementations are in the configuration before their mapping is recorded. */
  ghost predicate FilesInv(p: Project, s: State) {
    && (forall i :: 0 <= i < |s.mappings| ==> InFiles(p, s, s.mappings[i].implementations))
    && (forall h :: h in s.tasks && InCriticalSection(s.tasks[h]) ==> InFiles(p, s, s.tasks[h].implementations))
    && (forall h :: h in s.tasks && s.tasks[h].Waiting? ==> Compiled(p, s.tasks[h].implementations))
  }

  /** Every task's contract is marked as scanned, and has a record once it has been analyzed. */
  ghost predicate ScanInv(s: State) {
    && (forall h :: h in s.tasks ==> h in s.scanned)
    && (forall h :: h in s.records ==> h in s.tasks && s.tasks[h] != Analyzing)
    && (forall i, j :: 0 <= i < j < |s.records| ==> s.records[i] != s.records[j])
  }

  ghost predicate HasMapping(s: State, h: Handle) {
    h in s.tasks && (s.tasks[h].Recorded? || s.tasks[h].Merged? || s.tasks[h].Published?)
  }

  /** The mappings are exactly those of the tasks that have recorded one: none is lost or invented. */
  ghost predicate MappingsInv(s: State) {
    && (forall h :: HasMapping(s, h) ==> Mapping(h.name, s.tasks[h].implementations) in s.mappings)
    && (forall m :: m in s.mappings ==> OwnedBySome(s, m))
  }

  ghost predicate OwnedBySome(s: State, m: Mapping) {
    exists h :: HasMapping(s, h) && m == Mapping(h.name, s.tasks[h].implementations)
  }

  ghost predicate Inv(p: Project, s: State) {
    LockInv(s) && ExtensionsInv(s) && FilesInv(p, s) && ScanInv(s) && MappingsInv(s)
  }

  lemma NextKeepsLockInv(p: Project, a: Action, s: State, s': State)
    requires Inv(p, s) && Next(p, a, s, s')
    ensures LockInv(s')
  {
  }

  lemma NextKeepsExtensionsInv(p: Project, a: Action, s: State, s': State)
    requires Inv(p, s) && Next(p, a, s, s')
    ensures ExtensionsInv(s')
  {
    if a.Verdicts? && s.lock.HeldBy? {
      assert InCriticalSection(s.tasks[s.lock.holder]);
    }
  }

  lemma NextKeepsFilesInv(p: Project, a: Action, s: State, s': State)
    requires Inv(p, s) && Next(p, a, s, s')
    ensures FilesInv(p, s')
  {
    assert s.files <= s'.files;
    forall i | 0 <= i < |s'.mappings|
      ensures InFiles(p, s', s'.mappings[i].implementations)
    {
      if i < |s.mappings| {
        assert InFiles(p, s, s.mappings[i].implementations);
      } else {
        assert InFiles(p, s, s.tasks[a.h].implementations);
      }
    }
    forall h | h in s'.tasks && InCriticalSection(s'.tasks[h])
      ensures InFiles(p, s', s'.tasks[h].implementations)
    {
      if InCriticalSection(s.tasks[h]) {
        assert InFiles(p, s, s.tasks[h].implementations);
      }
    }
  }

  lemma NextKeepsScanInv(p: Project, a: Action, s: State, s': State)
    requires Inv(p, s) && Next(p, a, s, s')
    ensures ScanInv(s')
  {
  }

  lemma MappingsOfOthersStay(p: Project, a: Action, s: State, s': State, h: Handle)
    requires Inv(p, s) && Next(p, a, s, s') && HasMapping(s, h)
    ensures HasMapping(s', h) && s'.tasks[h].implementations == s.tasks[h].implementations
  {
    assert h in s.scanned;
  }

  lemma EveryMappingIsOwned(p: Project, a: Action, s: State, s': State, m: Mapping)
    requires Inv(p, s) && Next(p, a, s, s') && m in s'.mappings
    ensures OwnedBySome(s', m)
  {
    if m in s.mappings {
      assert OwnedBySome(s, m);
      var h :| HasMapping(s, h) && m == Mapping(h.name, s.tasks[h].implementations);
      MappingsOfOthersStay(p, a, s, s', h);
    } else {
      assert HasMapping(s', a.h);
    }
  }

  lemma OwnMappingIsRecorded(p: Project, a: Action, s: State, s': State, h: Handle)
    requires Inv(p, s) && Next(p, a, s, s') && HasMapping(s', h)
    ensures Mapping(h.name, s'.tasks[h].implementations) in s'.mappings
  {
    if HasMapping(s, h) {
      MappingsOfOthersStay(p, a, s, s', h);
    } else {
      assert a == Note(h) && s'.mappings[|s.mappings|] == Mapping(h.name, s'.tasks[h].implementations);
    }
  }

  lemma NextKeepsMappingsInv(p: Project, a: Action, s: State, s': State)
    requires Inv(p, s) && Next(p, a, s, s')
    ensures MappingsInv(s')
  {
    forall m | m in s'.mappings
      ensures OwnedBySome(s', m)
    {
      EveryMappingIsOwned(p, a, s, s', m);
    }
    forall h | HasMapping(s', h)
      ensures Mapping(h.name, s'.tasks[h].implementations) in s'.mappings
    {
      OwnMappingIsRecorded(p, a, s, s', h);
    }
  }

  lemma NextKeepsInv(p: Project, a: Action, s: State, s': State)
    requires Inv(p, s) && Next(p, a, s, s')
    ensures Inv(p, s')
  {
    NextKeepsLockInv(p, a, s, s');
    NextKeepsExtensionsInv(p, a, s, s');
    NextKeepsFilesInv(p, a, s, s');
    NextKeepsScanInv(p, a, s, s');
    NextKeepsMappingsInv(p, a, s, s');
  }

  // ----- Over whole runs -----

  ghost predicate IsRun(p: Project, run: seq<State>, actions: seq<Action>) {
    && |run| == |actions| + 1 && Init(run[0])
    && forall i :: 0 <= i < |actions| ==> Next(p, actions[i], run[i], run[i + 1])
  }

  lemma {:induction false} RunsKeepInv(p: Project, run: seq<State>, actions: seq<Action>, i: nat)
    requires IsRun(p, run, actions) && i < |run|
    ensures Inv(p, run[i])
    decreases i
  {
    if i > 0 {
      RunsKeepInv(p, run, actions, i - 1);
      assert Next(p, actions[i - 1], run[i - 1], run[i - 1 + 1]);
      NextKeepsInv(p, actions[i - 1], run[i - 1], run[i]);
    }
  }

  /** No later mapping has the name of mapping k. */
  predicate LastOfName(mappings: seq<Mapping>, k: int) {
    0 <= k < |mappings| && forall j :: k < j < |mappings| ==> mappings[j].proxy != mappings[k].proxy
  }

  /**
   * In every interleaving, whenever nobody holds the lock the configuration's extensions are the
   * last-wins map of the recorded mappings, every mapped implementation is among the configuration's
   * files, and no contract has been analyzed twice.
   */
  lemma RunsAreSafe(p: Project, run: seq<State>, actions: seq<Action>, i: nat)
    requires IsRun(p, run, actions) && i < |run|
    ensures run[i].lock == Free ==> run[i].extensions == Merge(run[i].mappings)
    ensures run[i].lock == Free ==> forall k :: LastOfName(run[i].mappings, k) ==>
      run[i].mappings[k].proxy in run[i].extensions
      && run[i].extensions[run[i].mappings[k].proxy] == run[i].mappings[k].implementations
    ensures forall k :: 0 <= k < |run[i].mappings| ==> InFiles(p, run[i], run[i].mappings[k].implementations)
    ensures forall j, k :: 0 <= j < k < |run[i].records| ==> run[i].records[j] != run[i].records[k]
    ensures forall h, h' ::
      h in run[i].tasks && h' in run[i].tasks && InCriticalSection(run[i].tasks[h]) && InCriticalSection(run[i].tasks[h']) ==> h == h'
  {
    RunsKeepInv(p, run, actions, i);
    forall k | LastOfName(run[i].mappings, k)
      ensures run[i].mappings[k].proxy in Merge(run[i].mappings)
           && Merge(run[i].mappings)[run[i].mappings[k].proxy] == run[i].mappings[k].implementations
    {
      MergeIsLast(run[i].mappings, k);
    }
  }

  // ----- The outcome does not depend on the interleaving -----

  lemma {:induction false} MergeAt(mappings: seq<Mapping>, name: string)
    ensures name in Merge(mappings) <==> exists i :: 0 <= i < |mappings| && mappings[i].proxy == name
    ensures name in Merge(mappings) ==> Mapping(name, Merge(mappings)[name]) in mappings
  {
    if mappings != [] {
      var last := |mappings| - 1;
      MergeAt(mappings[..last], name);
      if i :| 0 <= i < last && mappings[..last][i].proxy == name {
        assert mappings[i].proxy == name;
      }
      assert mappings[last] in mappings;
    }
  }

  /** The last mapping of a name wins. */
  lemma {:induction false} MergeIsLast(mappings: seq<Mapping>, i: nat)
    requires i < |mappings| && forall j :: i < j < |mappings| ==> mappings[j].proxy != mappings[i].proxy
    ensures mappings[i].proxy in Merge(mappings) && Merge(mappings)[mappings[i].proxy] == mappings[i].implementations
  {
    var last := |mappings| - 1;
    if i < last {
      assert mappings[..last][i] == mappings[i];
      MergeIsLast(mappings[..last], i);
    }
  }

  ghost predicate Quiescent(s: State) {
    forall h :: h in s.tasks ==> Finished(s.tasks[h])
  }

  ghost predicate PublishedAs(s: State, name: string, implementations: seq<string>) {
    exists h :: h in s.tasks && h.name == name && s.tasks[h] == Published(implementations)
  }

  /**
   * Once all tasks have finished, the extensions map exactly the names of the proxies found, each to
   * the implementations found for a proxy of that name: no task's write was lost.
   */
  lemma NoUpdateIsLost(p: Project, run: seq<State>, actions: seq<Action>, i: nat, name: string)
    requires IsRun(p, run, actions) && i < |run| && Quiescent(run[i])
    ensures name in run[i].extensions <==> exists impls :: PublishedAs(run[i], name, impls)
    ensures name in run[i].extensions ==> PublishedAs(run[i], name, run[i].extensions[name])
  {
    var s := run[i];
    RunsKeepInv(p, run, actions, i);
    assert s.lock == Free;
    MergeAt(s.mappings, name);
    if name in s.extensions {
      var m := Mapping(name, s.extensions[name]);
      assert OwnedBySome(s, m);
      var h :| HasMapping(s, h) && m == Mapping(h.name, s.tasks[h].implementations);
      assert Finished(s.tasks[h]);
      assert PublishedAs(s, name, s.extensions[name]);
    }
    if impls :| PublishedAs(s, name, impls) {
      var h :| h in s.tasks && h.name == name && s.tasks[h] == Published(impls);
      assert HasMapping(s, h);
    }
  }

  ghost predicate SameVerdicts(s: State, t: State) {
    forall name, impls :: PublishedAs(s, name, impls) <==> PublishedAs(t, name, impls)
  }

  ghost predicate OneProxyPerName(s: State) {
    forall name, impls, impls' :: PublishedAs(s, name, impls) && PublishedAs(s, name, impls') ==> impls == impls'
  }

  /** Two complete runs that found the same proxies, each under its own name, end with the same extensions. */
  lemma OutcomeIsIndependentOfOrder(p: Project, run: seq<State>, actions: seq<Action>, i: nat,
                                    run': seq<State>, actions': seq<Action>, i': nat)
    requires IsRun(p, run, actions) && i < |run| && Quiescent(run[i])
    requires IsRun(p, run', actions') && i' < |run'| && Quiescent(run'[i'])
    requires SameVerdicts(run[i], run'[i']) && OneProxyPerName(run[i])
    ensures run[i].extensions == run'[i'].extensions
  {
    var s, t := run[i], run'[i'];
    forall name
      ensures name in s.extensions <==> name in t.extensions
      ensures name in s.extensions ==> s.extensions[name] == t.extensions[name]
    {
      NoUpdateIsLost(p, run, actions, i, name);
      NoUpdateIsLost(p, run', actions', i', name);
    }
  }

  // ----- What is scanned, and what becomes of it -----

  /** Exactly the contracts other than libraries have tasks once they have been scanned. */
  ghost predicate TasksInv(p: Project, s: State) {
    && (forall h :: h in s.scanned && h.name !in p.libraries ==> h in s.tasks)
    && (forall h :: h in s.tasks ==> h.name !in p.libraries)
  }

  lemma NextKeepsTasksInv(p: Project, a: Action, s: State, s': State)
    requires TasksInv(p, s) && Next(p, a, s, s')
    ensures TasksInv(p, s') && forall h :: h in s.tasks ==> h in s'.tasks
  {
  }

  lemma {:induction false} RunsKeepTasksInv(p: Project, run: seq<State>, actions: seq<Action>, i: nat)
    requires IsRun(p, run, actions) && i < |run|
    ensures TasksInv(p, run[i])
    decreases i
  {
    if i > 0 {
      RunsKeepTasksInv(p, run, actions, i - 1);
      assert Next(p, actions[i - 1], run[i - 1], run[i - 1 + 1]);
      NextKeepsTasksInv(p, actions[i - 1], run[i - 1], run[i]);
    }
  }

  lemma {:induction false} TasksStay(p: Project, run: seq<State>, actions: seq<Action>, i: nat, j: nat, h: Handle)
    requires IsRun(p, run, actions) && i <= j < |run| && h in run[i].tasks
    ensures h in run[j].tasks
    decreases j
  {
    if i < j {
      TasksStay(p, run, actions, i, j - 1, h);
      RunsKeepTasksInv(p, run, actions, j - 1);
      assert Next(p, actions[j - 1], run[j - 1], run[j - 1 + 1]);
      NextKeepsTasksInv(p, actions[j - 1], run[j - 1], run[j]);
    }
  }

  /** From a scan on, each contract in the configuration's files that is no library has a task; libraries never have one. */
  lemma ScanCoversFiles(p: Project, run: seq<State>, actions: seq<Action>, i: nat, k: nat, j: nat, h: Handle)
    requires IsRun(p, run, actions) && i < |actions| && actions[i] == Scan && k == i + 1 <= j < |run| && h in run[i].files
    ensures h.name !in p.libraries <==> h in run[j].tasks
    ensures h.name !in p.libraries && h !in run[i].tasks ==> h in run[k].tasks && run[k].tasks[h] == Analyzing
  {
    RunsKeepTasksInv(p, run, actions, i);
    RunsKeepTasksInv(p, run, actions, j);
    if h.name !in p.libraries {
      ScanStep(p, run, actions, i, k, h);
      TasksStay(p, run, actions, k, j, h);
    }
  }

  lemma ScanStep(p: Project, run: seq<State>, actions: seq<Action>, i: nat, k: nat, h: Handle)
    requires IsRun(p, run, actions) && i < |actions| && actions[i] == Scan && k == i + 1 && h in run[i].files
    requires TasksInv(p, run[i]) && h.name !in p.libraries
    ensures h in run[k].tasks && (h !in run[i].tasks ==> run[k].tasks[h] == Analyzing)
  {
    assert Next(p, actions[i], run[i], run[i + 1]);
    assert StartScan(p, run[i], run[k]);
  }

  /** The task goes on with these implementations. */
  predicate Carries(t: Task, implementations: seq<string>) {
    match t
    case Waiting(impls) => impls == implementations
    case FilesAdded(impls) => impls == implementations
    case Recorded(impls) => impls == implementations
    case Merged(impls, _) => impls == implementations
    case Published(impls) => impls == implementations
    case _ => false
  }

  lemma NextKeepsCarrying(p: Project, a: Action, s: State, s': State, h: Handle, implementations: seq<string>)
    requires TasksInv(p, s) && ScanInv(s) && Next(p, a, s, s') && h in s.tasks && Carries(s.tasks[h], implementations)
    ensures h in s'.tasks && Carries(s'.tasks[h], implementations)
  {
    assert h in s.scanned;
  }

  lemma RunStep(p: Project, run: seq<State>, actions: seq<Action>, i: nat, k: nat)
    requires IsRun(p, run, actions) && k == i + 1 < |run|
    ensures i < |actions| && Next(p, actions[i], run[i], run[k])
  {
    assert Next(p, actions[i], run[i], run[i + 1]);
  }

  lemma StepCarries(p: Project, run: seq<State>, actions: seq<Action>, i: nat, k: nat, h: Handle, implementations: seq<string>)
    requires IsRun(p, run, actions) && k == i + 1 < |run| && h in run[i].tasks && Carries(run[i].tasks[h], implementations)
    ensures h in run[k].tasks && Carries(run[k].tasks[h], implementations)
  {
    RunsKeepTasksInv(p, run, actions, i);
    RunsKeepInv(p, run, actions, i);
    RunStep(p, run, actions, i, k);
    NextKeepsCarrying(p, actions[i], run[i], run[k], h, implementations);
  }

  lemma {:induction false} KeepsCarrying(p: Project, run: seq<State>, actions: seq<Action>, i: nat, j: nat, h: Handle, implementations: seq<string>)
    requires IsRun(p, run, actions) && i <= j < |run| && h in run[i].tasks && Carries(run[i].tasks[h], implementations)
    ensures h in run[j].tasks && Carries(run[j].tasks[h], implementations)
    decreases j
  {
    if i < j {
      KeepsCarrying(p, run, actions, i, j - 1, h, implementations);
      StepCarries(p, run, actions, j - 1, j, h, implementations);
    }
  }

  /** Once all tasks have finished, a proxy whose implementations are compiled is published with them. */
  lemma DetectedIsPublished(p: Project, run: seq<State>, actions: seq<Action>, j: nat, k: nat, i: nat, h: Handle, implementations: seq<string>)
    requires IsRun(p, run, actions) && j < |actions| && actions[j] == Verdicts(h, Proxy(implementations))
    requires k == j + 1 <= i < |run| && Quiescent(run[i]) && forall m :: m in implementations ==> m in p.index
    ensures h in run[i].tasks && run[i].tasks[h] == Published(implementations)
  {
    VerdictStep(p, run, actions, j, k, h, implementations);
    KeepsCarrying(p, run, actions, k, i, h, implementations);
    assert Finished(run[i].tasks[h]);
  }

  lemma VerdictStep(p: Project, run: seq<State>, actions: seq<Action>, j: nat, k: nat, h: Handle, implementations: seq<string>)
    requires IsRun(p, run, actions) && j < |actions| && actions[j] == Verdicts(h, Proxy(implementations)) && k == j + 1
    requires forall m :: m in implementations ==> m in p.index
    ensures h in run[k].tasks && Carries(run[k].tasks[h], implementations)
  {
    assert Next(p, actions[j], run[j], run[j + 1]);
    assert Analyze(p, h, Proxy(implementations), run[j], run[k]);
    assert Compiled(p, implementations);
  }

  ghost predicate DetectedBefore(actions: seq<Action>, i: nat, h: Handle, implementations: seq<string>) {
    exists j :: 0 <= j < i && j < |actions| && actions[j] == Verdicts(h, Proxy(implementations))
  }

  lemma NewCarrier(p: Project, a: Action, s: State, s': State, h: Handle, implementations: seq<string>)
    requires Next(p, a, s, s') && h in s'.tasks && Carries(s'.tasks[h], implementations)
    requires !(h in s.tasks && Carries(s.tasks[h], implementations))
    ensures a == Verdicts(h, Proxy(implementations))
  {
  }

  /** And nothing else is published: what a task carries is what was detected for its contract. */
  lemma {:induction false} CarriedIsDetected(p: Project, run: seq<State>, actions: seq<Action>, i: nat, h: Handle, implementations: seq<string>)
    requires IsRun(p, run, actions) && i < |run| && h in run[i].tasks && Carries(run[i].tasks[h], implementations)
    ensures DetectedBefore(actions, i, h, implementations)
    decreases i
  {
    if i > 0 {
      RunStep(p, run, actions, i - 1, i);
      if h in run[i - 1].tasks && Carries(run[i - 1].tasks[h], implementations) {
        CarriedIsDetected(p, run, actions, i - 1, h, implementations);
      } else {
        NewCarrier(p, actions[i - 1], run[i - 1], run[i], h, implementations);
      }
    }
  }

  /** The extensions in a finished run are detected ones, and their implementations' files are in the configuration. */
  lemma ExtensionsAreDetected(p: Project, run: seq<State>, actions: seq<Action>, i: nat, name: string)
    requires IsRun(p, run, actions) && i < |run| && Quiescent(run[i]) && name in run[i].extensions
    ensures exists h: Handle :: h.name == name && DetectedBefore(actions, i, h, run[i].extensions[name])
    ensures forall m :: m in run[i].extensions[name] ==> m in p.index && p.index[m] in run[i].files
  {
    var s, impls := run[i], run[i].extensions[name];
    NoUpdateIsLost(p, run, actions, i, name);
    var h :| h in s.tasks && h.name == name && s.tasks[h] == Published(impls);
    CarriedIsDetected(p, run, actions, i, h, impls);
    RunsKeepInv(p, run, actions, i);
    assert HasMapping(s, h);
    PublishedFiles(p, s, h, impls);
  }

  lemma PublishedFiles(p: Project, s: State, h: Handle, implementations: seq<string>)
    requires Inv(p, s) && h in s.tasks && s.tasks[h] == Published(implementations)
    ensures forall m :: m in implementations ==> m in p.index && p.index[m] in s.files
  {
    assert HasMapping(s, h);
    var k :| 0 <= k < |s.mappings| && s.mappings[k] == Mapping(h.name, implementations);
    assert InFiles(p, s, s.mappings[k].implementations);
  }

  ghost predicate AnalyzedBefore(actions: seq<Action>, i: nat, h: Handle) {
    exists j :: 0 <= j < i && j < |actions| && actions[j].Verdicts? && actions[j].h == h && actions[j].v != NoDetector
  }

  lemma AnalyzedNext(actions: seq<Action>, i: nat, h: Handle)
    requires i < |actions|
    ensures AnalyzedBefore(actions, i + 1, h)
       <==> AnalyzedBefore(actions, i, h) || (actions[i].Verdicts? && actions[i].h == h && actions[i].v != NoDetector)
  {
  }

  lemma RecordsNext(p: Project, a: Action, s: State, s': State, h: Handle)
    requires Next(p, a, s, s')
    ensures h in s'.records <==> h in s.records || (a.Verdicts? && a.h == h && a.v != NoDetector)
  {
  }

  /** A contract is on record if and only if a detector has looked at it. */
  lemma {:induction false} RecordsAreVerdicts(p: Project, run: seq<State>, actions: seq<Action>, i: nat, h: Handle)
    requires IsRun(p, run, actions) && i < |run|
    ensures h in run[i].records <==> AnalyzedBefore(actions, i, h)
    decreases i
  {
    if i > 0 {
      RecordsAreVerdicts(p, run, actions, i - 1, h);
      RunStep(p, run, actions, i - 1, i);
      RecordsNext(p, actions[i - 1], run[i - 1], run[i], h);
      AnalyzedNext(actions, i - 1, h);
    }
  }
}
