/**
 * The prover job queue: completed jobs may enqueue follow-up jobs, for every possible sequence of
 * prover results and every order in which the workers pick jobs.
 */
module FollowUpJobs {
  import opened Text

  /** The configuration's `multi_assert_check` entry; `Off` is any value but true. */
  datatype Setting = Absent | Off | On

  datatype Job = Job(contract: string, phase: string, multiAssert: Setting, rules: seq<string>, methods: seq<string>)

  datatype RuleResult = RuleResult(rule: string, failed: bool, status: string, methodName: string)

  /** What comes back for a job; the flags say whether its configuration exists and copies could be written. */
  datatype Report = Report(success: bool, configExists: bool, multiWritable: bool, retryWritable: bool, rules: seq<RuleResult>)

  const RETRY_MARK := "_difficult_retry"
  const MULTI_MARK := "_multi_assert"
  const STATIC_CHECK := "envfreeFuncsStaticCheck"

  // ----- Follow-up jobs of one result -----

  predicate Inconclusive(r: RuleResult) {
    r.status == "TIMEOUT" || r.status == "UNKNOWN"
  }

  predicate Hopeful(rs: seq<RuleResult>) {
    exists i :: 0 <= i < |rs| && rs[i].rule != STATIC_CHECK && (rs[i].status == "VERIFIED" || rs[i].status == "VIOLATED")
  }

  predicate Wanted(r: RuleResult, retry: bool) {
    if retry then Inconclusive(r) else r.failed
  }

  /** The names of the wanted rules, each once, in order of first appearance. */
  function WantedRules(rs: seq<RuleResult>, retry: bool): seq<string> {
    if rs == [] then []
    else
      var last := rs[|rs| - 1];
      var names := WantedRules(rs[..|rs| - 1], retry);
      if Wanted(last, retry) && last.rule !in names then names + [last.rule] else names
  }

  /** The methods reported for one wanted rule, each once. */
  function MethodsOf(rs: seq<RuleResult>, retry: bool, rule: string): seq<string> {
    if rs == [] then []
    else
      var last := rs[|rs| - 1];
      var names := MethodsOf(rs[..|rs| - 1], retry, rule);
      if Wanted(last, retry) && last.rule == rule && last.methodName != "" && last.methodName != "unknown_method"
         && last.methodName !in names
      then names + [last.methodName] else names
  }

  function FollowUp(job: Job, rs: seq<RuleResult>, retry: bool, rule: string): Job {
    var methods := MethodsOf(rs, retry, rule);
    job.(phase := job.phase + "_" + rule + if retry then RETRY_MARK else MULTI_MARK,
         multiAssert := if retry then job.multiAssert else On,
         rules := [rule],
         methods := if methods == [] then job.methods else methods)
  }

  function FollowUpsFor(job: Job, rs: seq<RuleResult>, retry: bool): seq<Job> {
    var names := WantedRules(rs, retry);
    seq(|names|, i requires 0 <= i < |names| => FollowUp(job, rs, retry, names[i]))
  }

  function MultiAssertJobs(job: Job, report: Report): seq<Job> {
    if !report.success || !report.configExists || !report.multiWritable || job.multiAssert != Off then []
    else FollowUpsFor(job, report.rules, false)
  }

  predicate MayRetry(retryDifficult: bool, job: Job, report: Report) {
    && retryDifficult
    && !Contains(job.phase, RETRY_MARK)
    && MultiAssertJobs(job, report) == []
    && report.success && report.configExists && report.retryWritable
    && Hopeful(report.rules)
  }

  function RetryJobs(retryDifficult: bool, job: Job, report: Report): seq<Job> {
    if MayRetry(retryDifficult, job, report) then FollowUpsFor(job, report.rules, true) else []
  }

  function NewJobs(retryDifficult: bool, job: Job, report: Report): seq<Job> {
    MultiAssertJobs(job, report) + RetryJobs(retryDifficult, job, report)
  }

  // ----- Which rules get which jobs -----

  /** No bad result before i has its rule. */
  predicate IsFirst(rs: seq<RuleResult>, bad: RuleResult -> bool, i: nat) {
    i < |rs| && bad(rs[i]) && forall h :: 0 <= h < i && bad(rs[h]) ==> rs[h].rule != rs[i].rule
  }

  /** `at` lists the first bad results of the rules, in order. */
  ghost predicate FirstOfEach(rs: seq<RuleResult>, bad: RuleResult -> bool, at: seq<nat>) {
    (forall i: nat :: i in at <==> IsFirst(rs, bad, i)) && forall k, l :: 0 <= k < l < |at| ==> at[k] < at[l]
  }

  /** A method that a bad result of the rule names. */
  predicate NamedMethod(rs: seq<RuleResult>, bad: RuleResult -> bool, rule: string, m: string) {
    && m != "" && m != "unknown_method"
    && exists i :: 0 <= i < |rs| && bad(rs[i]) && rs[i].rule == rule && rs[i].methodName == m
  }

  /** A copy of the job for one rule, on the methods named for it, or on all of them if none is. */
  ghost predicate IsCopyFor(job: Job, rs: seq<RuleResult>, bad: RuleResult -> bool, rule: string, mark: string,
                            setting: Setting, j: Job)
  {
    && j.contract == job.contract && j.rules == [rule] && j.multiAssert == setting && j.phase == job.phase + "_" + rule + mark
    && ((exists m :: NamedMethod(rs, bad, rule, m)) ==> forall m :: m in j.methods <==> NamedMethod(rs, bad, rule, m))
    && ((forall m :: !NamedMethod(rs, bad, rule, m)) ==> j.methods == job.methods)
  }

  /** One job for each rule with a bad result, in the order of the results. */
  ghost predicate OneJobEach(job: Job, rs: seq<RuleResult>, bad: RuleResult -> bool, mark: string, setting: Setting, js: seq<Job>) {
    exists at :: FirstOfEach(rs, bad, at) && |js| == |at|
      && forall k :: 0 <= k < |js| ==> at[k] < |rs| && IsCopyFor(job, rs, bad, rs[at[k]].rule, mark, setting, js[k])
  }

  predicate SomeBad(rs: seq<RuleResult>, bad: RuleResult -> bool) {
    exists i :: 0 <= i < |rs| && bad(rs[i])
  }

  lemma FirstInFront(rs: seq<RuleResult>, bad: RuleResult -> bool, i: nat)
    requires i < |rs| - 1
    ensures IsFirst(rs[..|rs| - 1], bad, i) <==> IsFirst(rs, bad, i)
  {
    assert forall h :: 0 <= h < |rs| - 1 ==> rs[..|rs| - 1][h] == rs[h];
  }

  /** A rule is wanted if and only if it has a bad result. */
  lemma {:induction false} WantedIsBad(rs: seq<RuleResult>, retry: bool, bad: RuleResult -> bool, rule: string)
    requires forall r :: bad(r) <==> Wanted(r, retry)
    ensures rule in WantedRules(rs, retry) <==> exists i :: 0 <= i < |rs| && bad(rs[i]) && rs[i].rule == rule
  {
    if rs != [] {
      var last := |rs| - 1;
      WantedIsBad(rs[..last], retry, bad, rule);
      if i :| 0 <= i < |rs| && bad(rs[i]) && rs[i].rule == rule {
        assert i < last ==> rs[..last][i] == rs[i];
      }
      if i :| 0 <= i < last && bad(rs[..last][i]) && rs[..last][i].rule == rule {
        assert bad(rs[i]);
      }
    }
  }

  lemma LastIsFirst(rs: seq<RuleResult>, retry: bool, bad: RuleResult -> bool)
    requires rs != [] && forall r :: bad(r) <==> Wanted(r, retry)
    ensures var last := |rs| - 1;
      IsFirst(rs, bad, last) <==> bad(rs[last]) && rs[last].rule !in WantedRules(rs[..last], retry)
  {
    var last := |rs| - 1;
    WantedIsBad(rs[..last], retry, bad, rs[last].rule);
    assert forall h :: 0 <= h < last ==> rs[..last][h] == rs[h];
  }

  /** The results at the given positions name the rules. */
  ghost predicate NamesAt(rs: seq<RuleResult>, at: seq<nat>, names: seq<string>) {
    |at| == |names| && forall k :: 0 <= k < |at| ==> at[k] < |rs| && names[k] == rs[at[k]].rule
  }

  lemma {:induction false} FirstResults(rs: seq<RuleResult>, retry: bool, bad: RuleResult -> bool) returns (at: seq<nat>)
    requires forall r :: bad(r) <==> Wanted(r, retry)
    ensures FirstOfEach(rs, bad, at) && NamesAt(rs, at, WantedRules(rs, retry))
  {
    at := [];
    if rs != [] {
      var last := |rs| - 1;
      var before := FirstResults(rs[..last], retry, bad);
      LastIsFirst(rs, retry, bad);
      at := if IsFirst(rs, bad, last) then before + [last] else before;
      FirstAdded(rs, bad, before);
      NameAdded(rs, before, WantedRules(rs[..last], retry));
    }
  }

  lemma NameAdded(rs: seq<RuleResult>, at: seq<nat>, names: seq<string>)
    requires rs != [] && NamesAt(rs[..|rs| - 1], at, names)
    ensures NamesAt(rs, at, names) && NamesAt(rs, at + [|rs| - 1], names + [rs[|rs| - 1].rule])
  {
  }

  lemma FirstAdded(rs: seq<RuleResult>, bad: RuleResult -> bool, before: seq<nat>)
    requires rs != [] && FirstOfEach(rs[..|rs| - 1], bad, before)
    ensures FirstOfEach(rs, bad, if IsFirst(rs, bad, |rs| - 1) then before + [|rs| - 1] else before)
  {
    var last := |rs| - 1;
    var at := if IsFirst(rs, bad, last) then before + [last] else before;
    forall i: nat
      ensures i in at <==> IsFirst(rs, bad, i)
    {
      if i < last {
        FirstInFront(rs, bad, i);
      } else {
        assert !IsFirst(rs[..last], bad, i);
      }
    }
    forall k | 0 <= k < |before|
      ensures before[k] < last
    {
      assert before[k] in before;
    }
  }

  lemma {:induction false} MethodsAreNamed(rs: seq<RuleResult>, retry: bool, bad: RuleResult -> bool, rule: string, m: string)
    requires forall r :: bad(r) <==> Wanted(r, retry)
    ensures m in MethodsOf(rs, retry, rule) <==> NamedMethod(rs, bad, rule, m)
  {
    if rs != [] {
      var last := |rs| - 1;
      MethodsAreNamed(rs[..last], retry, bad, rule, m);
      assert forall i :: 0 <= i < last ==> rs[..last][i] == rs[i];
      if NamedMethod(rs, bad, rule, m) {
        var i :| 0 <= i < |rs| && bad(rs[i]) && rs[i].rule == rule && rs[i].methodName == m;
        assert i < last ==> bad(rs[..last][i]);
      }
      if NamedMethod(rs[..last], bad, rule, m) {
        var i :| 0 <= i < last && bad(rs[..last][i]) && rs[..last][i].rule == rule && rs[..last][i].methodName == m;
        assert bad(rs[i]);
      }
    }
  }

  lemma FollowUpIsCopy(job: Job, rs: seq<RuleResult>, retry: bool, bad: RuleResult -> bool, rule: string)
    requires forall r :: bad(r) <==> Wanted(r, retry)
    ensures IsCopyFor(job, rs, bad, rule, if retry then "_difficult_retry" else "_multi_assert",
                      if retry then job.multiAssert else On, FollowUp(job, rs, retry, rule))
  {
    forall m
      ensures m in MethodsOf(rs, retry, rule) <==> NamedMethod(rs, bad, rule, m)
    {
      MethodsAreNamed(rs, retry, bad, rule, m);
    }
    var methods := MethodsOf(rs, retry, rule);
    if methods != [] {
      assert NamedMethod(rs, bad, rule, methods[0]);
    }
    PhaseOf(job.phase, rule, if retry then "_difficult_retry" else "_multi_assert");
  }

  lemma PhaseOf(phase: string, rule: string, mark: string)
    ensures phase + ("_" + rule + mark) == phase + "_" + rule + mark
  {
  }

  lemma FollowUpsAreCopies(job: Job, rs: seq<RuleResult>, retry: bool, bad: RuleResult -> bool)
    requires forall r :: bad(r) <==> Wanted(r, retry)
    ensures OneJobEach(job, rs, bad, if retry then "_difficult_retry" else "_multi_assert",
                       if retry then job.multiAssert else On, FollowUpsFor(job, rs, retry))
    ensures FollowUpsFor(job, rs, retry) == [] <==> !SomeBad(rs, bad)
  {
    var at := FirstResults(rs, retry, bad);
    var js := FollowUpsFor(job, rs, retry);
    forall k | 0 <= k < |js|
      ensures IsCopyFor(job, rs, bad, rs[at[k]].rule, if retry then "_difficult_retry" else "_multi_assert",
                        if retry then job.multiAssert else On, js[k])
    {
      FollowUpIsCopy(job, rs, retry, bad, rs[at[k]].rule);
    }
    SomeWantedIsBad(rs, retry, bad);
  }

  lemma SomeWantedIsBad(rs: seq<RuleResult>, retry: bool, bad: RuleResult -> bool)
    requires forall r :: bad(r) <==> Wanted(r, retry)
    ensures WantedRules(rs, retry) == [] <==> !SomeBad(rs, bad)
  {
    if i :| 0 <= i < |rs| && bad(rs[i]) {
      WantedIsBad(rs, retry, bad, rs[i].rule);
    }
    if WantedRules(rs, retry) != [] {
      WantedIsBad(rs, retry, bad, WantedRules(rs, retry)[0]);
    }
  }

  function Failed(): RuleResult -> bool {
    (r: RuleResult) => r.failed
  }

  function TimedOut(): RuleResult -> bool {
    (r: RuleResult) => r.status == "TIMEOUT" || r.status == "UNKNOWN"
  }

  /** A rule that is no static check came to a result. */
  predicate SomeHope(rs: seq<RuleResult>) {
    exists i :: 0 <= i < |rs| && rs[i].rule != "envfreeFuncsStaticCheck" && (rs[i].status == "VERIFIED" || rs[i].status == "VIOLATED")
  }

  /**
   * A job whose setting is there and is not true is repeated with the setting on for each rule that
   * failed. Otherwise a job that is no retry is repeated for each rule without a result, if another
   * rule had one and retrying is wanted.
   */
  lemma JobsAreForRules(retryDifficult: bool, job: Job, report: Report)
    ensures var js := NewJobs(retryDifficult, job, report);
      var multi := report.success && report.configExists && report.multiWritable && job.multiAssert == Off && SomeBad(report.rules, Failed());
      var retry := retryDifficult && !Contains(job.phase, "_difficult_retry") && report.success && report.configExists
                   && report.retryWritable && SomeHope(report.rules);
      && (multi ==> OneJobEach(job, report.rules, Failed(), "_multi_assert", On, js))
      && (!multi && retry ==> OneJobEach(job, report.rules, TimedOut(), "_difficult_retry", job.multiAssert, js))
      && (!multi && !retry ==> js == [])
  {
    FollowUpsAreCopies(job, report.rules, false, Failed());
    FollowUpsAreCopies(job, report.rules, true, TimedOut());
    KindsOfJobs(retryDifficult, job, report);
  }

  lemma KindsOfJobs(retryDifficult: bool, job: Job, report: Report)
    ensures var a, b := FollowUpsFor(job, report.rules, false), FollowUpsFor(job, report.rules, true);
      var multi := report.success && report.configExists && report.multiWritable && job.multiAssert == Off && a != [];
      var retry := retryDifficult && !Contains(job.phase, "_difficult_retry") && report.success && report.configExists
                   && report.retryWritable && SomeHope(report.rules);
      NewJobs(retryDifficult, job, report) == if multi then a else if retry then b else []
  {
    var a, b := FollowUpsFor(job, report.rules, false), FollowUpsFor(job, report.rules, true);
    assert a + [] == a && [] + b == b;
    assert SomeHope(report.rules) <==> Hopeful(report.rules);
  }

  // ----- Generations -----

  /** How many more generations of follow-ups a job may have. */
  function Energy(job: Job): nat {
    (if job.multiAssert == Off then 1 else 0) + if Contains(job.phase, RETRY_MARK) then 0 else 1
  }

  lemma FollowUpLosesEnergy(job: Job, rs: seq<RuleResult>, retry: bool, rule: string)
    requires if retry then !Contains(job.phase, RETRY_MARK) else job.multiAssert == Off
    ensures Energy(FollowUp(job, rs, retry, rule)) < Energy(job)
  {
    var tail := "_" + rule + if retry then RETRY_MARK else MULTI_MARK;
    assert FollowUp(job, rs, retry, rule).phase == job.phase + tail;
    ContainsExtended(job.phase, RETRY_MARK, tail);
    ContainsExtended(job.phase + "_" + rule, RETRY_MARK, "");
  }

  /** Every spawned job has less energy than the job that spawned it, whatever the prover reported. */
  lemma NewJobsLoseEnergy(retryDifficult: bool, job: Job, report: Report)
    ensures forall j :: j in NewJobs(retryDifficult, job, report) ==> Energy(j) < Energy(job)
  {
    forall retry: bool, rule: string | if retry then !Contains(job.phase, RETRY_MARK) else job.multiAssert == Off
      ensures Energy(FollowUp(job, report.rules, retry, rule)) < Energy(job)
    {
      FollowUpLosesEnergy(job, report.rules, retry, rule);
    }
  }

  ghost predicate Spawns(retryDifficult: bool, parent: Job, child: Job) {
    exists report :: child in NewJobs(retryDifficult, parent, report)
  }

  lemma {:induction false} ChainLosesEnergy(retryDifficult: bool, chain: seq<Job>)
    requires chain != [] && forall i :: 0 <= i < |chain| - 1 ==> Spawns(retryDifficult, chain[i], chain[i + 1])
    ensures Energy(chain[|chain| - 1]) + |chain| - 1 <= Energy(chain[0])
  {
    if |chain| > 1 {
      var last := |chain| - 1;
      ChainLosesEnergy(retryDifficult, chain[..last]);
      assert Spawns(retryDifficult, chain[last - 1], chain[last - 1 + 1]);
      var report :| chain[last] in NewJobs(retryDifficult, chain[last - 1], report);
      NewJobsLoseEnergy(retryDifficult, chain[last - 1], report);
    }
  }

  /** A job has follow-ups of follow-ups at most, never a third generation. */
  lemma SpawnDepthAtMostTwo(retryDifficult: bool, chain: seq<Job>)
    requires chain != [] && forall i :: 0 <= i < |chain| - 1 ==> Spawns(retryDifficult, chain[i], chain[i + 1])
    ensures |chain| <= 3
  {
    ChainLosesEnergy(retryDifficult, chain);
  }

  // ----- Counting -----

  /** Multi-assert and retry jobs exclude each other, so a result spawns at most one job per rule. */
  lemma AtMostOneKind(retryDifficult: bool, job: Job, report: Report, r: nat)
    requires |WantedRules(report.rules, false)| <= r && |WantedRules(report.rules, true)| <= r
    ensures |NewJobs(retryDifficult, job, report)| <= r
  {
  }

  /** The most runs that one job can cause when no result has more than `r` wanted rules. */
  function Cost(energy: nat, r: nat): nat {
    if energy == 0 then 1 else if energy == 1 then 1 + r else 1 + r + r * r
  }

  function TotalCost(jobs: seq<Job>, r: nat): nat {
    if jobs == [] then 0 else TotalCost(jobs[..|jobs| - 1], r) + Cost(Energy(jobs[|jobs| - 1]), r)
  }

  function CountEnergy(jobs: seq<Job>, energy: nat): nat {
    if jobs == [] then 0
    else CountEnergy(jobs[..|jobs| - 1], energy) + if Energy(jobs[|jobs| - 1]) == energy then 1 else 0
  }

  lemma {:induction false} TotalsAppend(a: seq<Job>, b: seq<Job>, r: nat, energy: nat)
    ensures TotalCost(a + b, r) == TotalCost(a, r) + TotalCost(b, r)
    ensures CountEnergy(a + b, energy) == CountEnergy(a, energy) + CountEnergy(b, energy)
    decreases |b|
  {
    if b == [] {
      assert a + b == a;
    } else {
      var last := |b| - 1;
      assert (a + b)[..|a + b| - 1] == a + b[..last];
      TotalsAppend(a, b[..last], r, energy);
    }
  }

  lemma {:induction false} NewJobsBounds(jobs: seq<Job>, energy: nat, r: nat)
    requires energy <= 2 && forall j :: j in jobs ==> Energy(j) < energy
    ensures forall e :: e >= energy ==> CountEnergy(jobs, e) == 0
    ensures |jobs| <= r ==> TotalCost(jobs, r) + 1 <= Cost(energy, r)
  {
    NoneThatHigh(jobs, energy);
    CostOfAll(jobs, energy, r);
    if |jobs| <= r && energy == 2 {
      MulMonotone(|jobs|, r, 1 + r);
      assert r * (1 + r) == r + r * r;
    }
  }

  lemma {:induction false} NoneThatHigh(jobs: seq<Job>, energy: nat)
    requires forall j :: j in jobs ==> Energy(j) < energy
    ensures forall e :: e >= energy ==> CountEnergy(jobs, e) == 0
  {
    if jobs != [] {
      var last := |jobs| - 1;
      assert jobs[last] in jobs;
      NoneThatHigh(jobs[..last], energy);
    }
  }

  lemma MulMonotone(a: nat, b: nat, k: nat)
    requires a <= b
    ensures a * k <= b * k
  {
  }

  lemma {:induction false} CostOfAll(jobs: seq<Job>, energy: nat, r: nat)
    requires energy <= 2 && forall j :: j in jobs ==> Energy(j) < energy
    ensures energy == 0 ==> jobs == []
    ensures energy == 1 ==> TotalCost(jobs, r) <= |jobs|
    ensures energy == 2 ==> TotalCost(jobs, r) <= |jobs| * (1 + r)
  {
    if jobs != [] {
      var last := |jobs| - 1;
      assert jobs[last] in jobs;
      CostOfAll(jobs[..last], energy, r);
      assert |jobs| * (1 + r) == last * (1 + r) + (1 + r);
    }
  }

  lemma {:induction false} InitialCost(jobs: seq<Job>, r: nat)
    ensures TotalCost(jobs, r) <= |jobs| * (1 + r + r * r)
  {
    if jobs != [] {
      var last, c := |jobs| - 1, 1 + r + r * r;
      InitialCost(jobs[..last], r);
      CostAtMost(Energy(jobs[last]), r);
      OneMoreTimes(last, c);
    }
  }

  lemma CostAtMost(energy: nat, r: nat)
    requires energy <= 2
    ensures Cost(energy, r) <= 1 + r + r * r
  {
  }

  lemma OneMoreTimes(n: nat, c: nat)
    ensures (n + 1) * c == n * c + c
  {
  }

  class JobCallbacks {
    const retryDifficult: bool
    var jobResults: seq<(Job, Report)>

    constructor (retryDifficult: bool)
      ensures this.retryDifficult == retryDifficult && jobResults == []
    {
      this.retryDifficult := retryDifficult;
      jobResults := [];
    }

    /** Collects the wanted rules of a result and builds one follow-up job for each. */
    method CreateFollowUps(job: Job, rs: seq<RuleResult>, retry: bool) returns (newJobs: seq<Job>)
      ensures newJobs == FollowUpsFor(job, rs, retry)
    {
      var names: seq<string> := [];
      for i := 0 to |rs|
        invariant names == WantedRules(rs[..i], retry)
      {
        assert rs[..i + 1][..i] == rs[..i];
        if Wanted(rs[i], retry) && rs[i].rule !in names {
          names := names + [rs[i].rule];
        }
      }
      assert rs[..|rs|] == rs;
      newJobs := [];
      for i := 0 to |names|
        invariant |newJobs| == i && forall k :: 0 <= k < i ==> newJobs[k] == FollowUp(job, rs, retry, names[k])
      {
        newJobs := newJobs + [FollowUp(job, rs, retry, names[i])];
      }
    }

    method OnJobComplete(job: Job, report: Report, queue: seq<Job>) returns (queue': seq<Job>)
      modifies this
      ensures jobResults == old(jobResults) + [(job, report)]
      ensures queue' == queue + NewJobs(retryDifficult, job, report)
    {
      jobResults := jobResults + [(job, report)];
      queue' := queue;
      var multiProcessed := false;
      if report.success && report.configExists && report.multiWritable && job.multiAssert == Off {
        var multi := CreateFollowUps(job, report.rules, false);
        multiProcessed := multi != [];
        queue' := queue' + multi;
      }
      if retryDifficult && !Contains(job.phase, RETRY_MARK) && !multiProcessed
         && report.success && report.configExists && report.retryWritable && Hopeful(report.rules) {
        var retries := CreateFollowUps(job, report.rules, true);
        queue' := queue' + retries;
      }
    }
  }

  /** No report of the oracle has more than `r` wanted rules of either kind. */
  ghost predicate RulesBounded(prover: (nat, Job) -> (bool, Report), r: nat) {
    forall n, job :: |WantedRules(prover(n, job).1.rules, false)| <= r && |WantedRules(prover(n, job).1.rules, true)| <= r
  }

  /** The queue with the job at `i` taken out and its follow-ups, if any, put in. */
  lemma QueueStep(retryDifficult: bool, queue: seq<Job>, i: nat, added: seq<Job>, r: nat)
    requires i < |queue| && forall j :: j in added ==> Energy(j) < Energy(queue[i])
    ensures var next := queue[..i] + queue[i + 1..] + added;
      var e := Energy(queue[i]);
      && e <= 2
      && CountEnergy(next, e) == CountEnergy(queue, e) - 1
      && (forall k :: k > e ==> CountEnergy(next, k) == CountEnergy(queue, k))
      && (|added| <= r ==> TotalCost(next, r) + 1 <= TotalCost(queue, r))
  {
    var job := queue[i];
    var e := Energy(job);
    NewJobsBounds(added, e, r);
    assert queue == queue[..i] + ([job] + queue[i + 1..]);
    forall k: nat
      ensures CountEnergy(queue, k) == CountEnergy(queue[..i] + queue[i + 1..], k) + if e == k then 1 else 0
      ensures TotalCost(queue, r) == TotalCost(queue[..i] + queue[i + 1..], r) + Cost(e, r)
      ensures CountEnergy(queue[..i] + queue[i + 1..] + added, k)
           == CountEnergy(queue[..i] + queue[i + 1..], k) + CountEnergy(added, k)
      ensures TotalCost(queue[..i] + queue[i + 1..] + added, r) == TotalCost(queue[..i] + queue[i + 1..], r) + TotalCost(added, r)
    {
      TotalsAppend(queue[..i], [job] + queue[i + 1..], r, k);
      TotalsAppend([job], queue[i + 1..], r, k);
      TotalsAppend(queue[..i], queue[i + 1..], r, k);
      TotalsAppend(queue[..i] + queue[i + 1..], added, r, k);
      assert CountEnergy([job], k) == if e == k then 1 else 0;
      assert TotalCost([job], r) == Cost(e, r);
    }
  }

  /**
   * Runs the queue until it is empty. The prover's reports and the order in which jobs are picked are
   * arbitrary; a job may also be lost to a worker error before it reports. The queue always empties,
   * and with at most r wanted rules per report, n initial jobs cause at most n (1 + r + r^2) runs.
   */
  method ProcessQueue(callbacks: JobCallbacks, initial: seq<Job>, prover: (nat, Job) -> (bool, Report), pick: nat -> nat)
    returns (queue: seq<Job>, runs: nat)
    modifies callbacks
    ensures queue == []
    ensures forall r: nat :: RulesBounded(prover, r) ==> runs <= |initial| * (1 + r + r * r)
    ensures |old(callbacks.jobResults)| <= |callbacks.jobResults| <= |old(callbacks.jobResults)| + runs
  {
    queue, runs := initial, 0;
    while queue != []
      invariant forall r: nat :: RulesBounded(prover, r) ==> runs + TotalCost(queue, r) <= TotalCost(initial, r)
      invariant |old(callbacks.jobResults)| <= |callbacks.jobResults| <= |old(callbacks.jobResults)| + runs
      decreases CountEnergy(queue, 2), CountEnergy(queue, 1), CountEnergy(queue, 0)
    {
      var i := pick(runs) % |queue|;
      var job := queue[i];
      ghost var queue0, added := queue, [];
      var (lost, report) := prover(runs, job);
      queue := queue[..i] + queue[i + 1..];
      NewJobsLoseEnergy(callbacks.retryDifficult, job, report);
      if lost {
        assert queue == queue + [];
      } else {
        added := NewJobs(callbacks.retryDifficult, job, report);
        queue := callbacks.OnJobComplete(job, report, queue);
      }
      QueueStep(callbacks.retryDifficult, queue0, i, added, 0);
      forall r: nat | RulesBounded(prover, r)
        ensures runs + 1 + TotalCost(queue, r) <= TotalCost(initial, r)
      {
        AtMostOneKind(callbacks.retryDifficult, job, prover(runs, job).1, r);
        QueueStep(callbacks.retryDifficult, queue0, i, added, r);
      }
      runs := runs + 1;
    }
    forall r: nat | RulesBounded(prover, r)
      ensures runs <= |initial| * (1 + r + r * r)
    {
      InitialCost(initial, r);
    }
  }
}
