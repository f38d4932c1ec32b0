/** `process_job` and the per-message shape of `run_worker`: prepare the
    run, execute it in the sandbox, compare the outputs, resolve the level
    and verdict, then assemble, sign and store the result. The daemon's
    answers, the tar reader, the square root, the clock and the fresh
    result id are parameters; the queue is the list of operations made on
    it. */
module Worker {
  import opened Wrappers
  import opened Utf8
  import opened Enums
  import opened Ids
  import opened Job
  import opened Comparison
  import opened Comparators
  import opened Container
  import opened Security
  import opened Sandbox
  import opened Runners
  import opened Ed25519
  import opened Results
  import opened Signing

  /** `runner_output.outputs.get(name)`. */
  function Lookup(files: Files, name: string): (r: Option<seq<byte>>)
    ensures r.Some? <==> HasKey(files, name)
    ensures r.Some? ==> exists i | 0 <= i < |files| :: files[i] == (name, r.value)
  {
    if HasKey(files, name) then Some(files[KeyIndex(files, name)].1) else None
  }

  /** The comparison of one expected artefact: a missing output is a
      mismatch with score 0; otherwise the method's comparator runs on the
      expected content (empty when absent) and the actual bytes. */
  function CompareOne(e: ExpectedOutput, outputs: Files, sqrt: real -> real): (c: OutputComparison)
    ensures c.name == e.name && c.usedMethod == e.comparisonMethod
    ensures 0.0 <= c.score <= 1.0
    ensures Lookup(outputs, e.name).None? ==> !c.matched && c.score == 0.0 && c.details == OutputNotFound
    ensures Lookup(outputs, e.name).Some? ==>
              c.matched == RunComparator(GetComparator(e.comparisonMethod), ExpectedBytes(e),
                                         Lookup(outputs, e.name).value, sqrt).matched
  {
    match Lookup(outputs, e.name)
    case None => OutputComparison(e.name, false, e.comparisonMethod, 0.0, OutputNotFound)
    case Some(actual) =>
      var r := RunComparator(GetComparator(e.comparisonMethod), ExpectedBytes(e), actual, sqrt);
      DispatchReportsMethod(e.comparisonMethod, ExpectedBytes(e), actual, sqrt);
      OutputComparison(e.name, r.matched, r.usedMethod, r.score, r.details)
  }

  /** One comparison per expected artefact, in order. */
  function CompareAll(es: seq<ExpectedOutput>, outputs: Files, sqrt: real -> real): (cs: seq<OutputComparison>)
    ensures |cs| == |es|
    ensures forall i | 0 <= i < |es| :: cs[i] == CompareOne(es[i], outputs, sqrt)
  {
    if es == [] then [] else [CompareOne(es[0], outputs, sqrt)] + CompareAll(es[1..], outputs, sqrt)
  }

  /** Comparisons are made only when there are expected outputs and the
      runner succeeded. */
  function BuildComparisons(expected: Option<seq<ExpectedOutput>>, out: RunnerOutput,
                            sqrt: real -> real): (cs: seq<OutputComparison>)
    ensures cs != [] <==> expected.Some? && expected.value != [] && out.success
    ensures cs != [] ==> |cs| == |expected.value|
    ensures cs != [] ==> forall i | 0 <= i < |cs| :: cs[i] == CompareOne(expected.value[i], out.outputs, sqrt)
  {
    if expected.Some? && |expected.value| > 0 && out.success then
      CompareAll(expected.value, out.outputs, sqrt)
    else []
  }

  predicate AllMatched(cs: seq<OutputComparison>)
  {
    forall i | 0 <= i < |cs| :: cs[i].matched
  }

  /** A comparison only matches an artefact the run produced. */
  lemma MatchedOutputsExist(expected: Option<seq<ExpectedOutput>>, out: RunnerOutput,
                            sqrt: real -> real, i: nat)
    requires i < |BuildComparisons(expected, out, sqrt)|
    requires BuildComparisons(expected, out, sqrt)[i].matched
    ensures HasKey(out.outputs, expected.value[i].name)
  {
  }

  /** A run that produced every expected artefact exactly (missing
      content standing for empty bytes) has all its comparisons matched. */
  lemma ExactOutputsAllMatch(expected: Option<seq<ExpectedOutput>>, out: RunnerOutput,
                             sqrt: real -> real)
    requires expected.Some?
    requires forall i | 0 <= i < |expected.value| ::
               Lookup(out.outputs, expected.value[i].name) == Some(ExpectedBytes(expected.value[i]))
    ensures AllMatched(BuildComparisons(expected, out, sqrt))
  {
    var cs := BuildComparisons(expected, out, sqrt);
    forall i | 0 <= i < |cs|
      ensures cs[i].matched
    {
      var e := expected.value[i];
      RunComparatorReflexive(GetComparator(e.comparisonMethod), ExpectedBytes(e), sqrt);
    }
  }

  /** The level and verdict, decided in the order the worker tests them. */
  function ResolveLevel(timedOut: bool, exitCode: int, out: RunnerOutput,
                        cs: seq<OutputComparison>): (v: (VerificationLevel, bool))
    ensures timedOut ==> v == (L0Unverified, false)
    ensures !timedOut && !out.success ==>
              v == (if exitCode != 0 then L1SyntaxVerified else L0Unverified, false)
    ensures !timedOut && out.success && cs != [] && AllMatched(cs) ==> v == (out.level, true)
    ensures !timedOut && out.success && cs != [] && !AllMatched(cs) ==> v == (L2ExecutionVerified, false)
    ensures !timedOut && out.success && cs == [] ==> v == (out.level, true)
  {
    if timedOut then (L0Unverified, false)
    else if !out.success then (if exitCode != 0 then L1SyntaxVerified else L0Unverified, false)
    else if cs != [] && AllMatched(cs) then (out.level, true)
    else if cs != [] then (L2ExecutionVerified, false)
    else (out.level, out.success)
  }

  /** The verdict in one sentence: a job passes exactly when it did not
      time out, its runner succeeded and every comparison matched. */
  lemma PassedIffClean(timedOut: bool, exitCode: int, out: RunnerOutput, cs: seq<OutputComparison>)
    ensures ResolveLevel(timedOut, exitCode, out, cs).1 <==> !timedOut && out.success && AllMatched(cs)
  {
  }

  /** With the runners' own exit-code reading, the level is L0 exactly
      after a timeout, L1 exactly after a failed exit, and never L3, L4
      or L5; a passing job carries the runner's claimed level. */
  lemma ResolvedLevels(r: Runner, timedOut: bool, exitCode: int, stdout: string, stderr: string,
                       files: Files, cs: seq<OutputComparison>)
    ensures var v := ResolveLevel(timedOut, exitCode, ParseOutput(r, exitCode, stdout, stderr, files), cs);
      (v.0 == L0Unverified || v.0 == L1SyntaxVerified || v.0 == L2ExecutionVerified || v.0 == L6FormallyProven)
      && (v.0 == L0Unverified <==> timedOut)
      && (v.0 == L1SyntaxVerified <==> !timedOut && exitCode != 0)
      && (v.1 ==> v.0 == ClaimedLevel(r))
  {
  }

  const StreamLimit: nat := 1000

  /** `s[:1000] if s else None`. */
  function Clip(s: string): (r: Option<string>)
    ensures r.None? <==> s == []
    ensures r.Some? ==> |r.value| <= StreamLimit && r.value <= s
    ensures r.Some? && |s| <= StreamLimit ==> r.value == s
    ensures r.Some? && |s| > StreamLimit ==> |r.value| == StreamLimit
  {
    if s == [] then None
    else if |s| <= StreamLimit then Some(s)
    else Some(s[..StreamLimit])
  }

  /** A stored stream is stored again unchanged. */
  lemma ClipIdempotent(s: string)
    requires s != []
    ensures Clip(Clip(s).value) == Clip(s)
  {
  }

  /** The result record before signing. */
  function AssembleResult(id: Uuid, now: string, job: VerificationJob, image: string,
                          sr: SandboxResult, out: RunnerOutput, cs: seq<OutputComparison>,
                          level: VerificationLevel, passed: bool): (r: VerificationResult)
    ensures r.jobId == job.id && r.claimId == job.claimId && r.codeHash == job.codeHash
    ensures r.level == level && r.passed == passed && r.executionMillis == sr.executionMillis
    ensures r.outputsMatched.None? <==> cs == []
    ensures r.outputsMatched.Some? ==> r.outputsMatched.value == cs
    ensures r.errorMessage.Some? <==> !passed
    ensures r.errorMessage.Some? ==> r.errorMessage.value == out.errors
    ensures r.stdout == Clip(sr.stdout) && r.stderr == Clip(sr.stderr)
    ensures r.runnerImage == image && r.signature == Unsigned
  {
    VerificationResult(id, job.id, job.claimId, level, passed, job.codeHash, Unsigned,
                       sr.executionMillis, if cs == [] then None else Some(cs),
                       Clip(sr.stdout), Clip(sr.stderr), if passed then None else Some(out.errors),
                       image, now)
  }

  /** A processed job: the stored result or the error raised, and the
      container operations made on the way. */
  datatype JobRun = JobRun(result: Result<VerificationResult>, trace: seq<Event>)

  /** After the sandbox run: parse, compare, resolve, assemble and sign. */
  function Finish(signer: ResultSigner, id: Uuid, now: string, job: VerificationJob, r: Runner,
                  image: string, sr: SandboxResult, sqrt: real -> real): (res: VerificationResult)
    ensures res.signature == SignResult(signer, res)
    ensures res.runnerImage == image && res.jobId == job.id && res.claimId == job.claimId
    ensures res.passed <==> !sr.timedOut && sr.exitCode == 0
                            && AllMatched(BuildComparisons(job.expectedOutputs,
                                 ParseOutput(r, sr.exitCode, sr.stdout, sr.stderr, sr.outputFiles), sqrt))
    ensures res.level == L0Unverified <==> sr.timedOut
    ensures res.level in {L0Unverified, L1SyntaxVerified, L2ExecutionVerified, L6FormallyProven}
    ensures res.passed ==> res.level == ClaimedLevel(r)
  {
    var out := ParseOutput(r, sr.exitCode, sr.stdout, sr.stderr, sr.outputFiles);
    var cs := BuildComparisons(job.expectedOutputs, out, sqrt);
    var v := ResolveLevel(sr.timedOut, sr.exitCode, out, cs);
    PassedIffClean(sr.timedOut, sr.exitCode, out, cs);
    ResolvedLevels(r, sr.timedOut, sr.exitCode, sr.stdout, sr.stderr, sr.outputFiles, cs);
    var unsigned := AssembleResult(id, now, job, image, sr, out, cs, v.0, v.1);
    var signed := unsigned.(signature := SignResult(signer, unsigned));
    PayloadDeterminesFields(unsigned, signed);
    signed
  }

  /** The part of `process_job` up to the sandbox: prepare the run, build
      the policy from the limits and run the container. A raise before the
      container exists makes no container operation. The sandbox is given
      no environment: the runner's `env_vars` are not passed on. */
  function Launch(job: VerificationJob, d: Daemon, untar: seq<byte> -> Result<seq<Member>>): (o: Outcome)
    ensures Prepare(GetRunner(job.runnerType), job).Err? ==>
              o == Outcome(Err(Prepare(GetRunner(job.runnerType), job).error), [])
    ensures Prepare(GetRunner(job.runnerType), job).Ok? && PolicyFromLimits(job.resourceLimits).Err? ==>
              o == Outcome(Err(PolicyFromLimits(job.resourceLimits).error), [])
    ensures o.trace != [] ==> o.trace[0].Created? && o.trace[0].env == map[]
                              && o.trace[|o.trace| - 1] == Removed
    ensures o.trace != [] && d.remove.Err? ==> o.result == Err(d.remove.error)
  {
    match Prepare(GetRunner(job.runnerType), job)
    case Err(e) => Outcome(Err(e), [])
    case Ok(p) =>
      match PolicyFromLimits(job.resourceLimits)
      case Err(e) => Outcome(Err(e), [])
      case Ok(policy) => Sandbox.Run(p.image, p.command, p.codeFiles, p.dataFiles, policy, None, d, untar)
  }

  /** `process_job` from preparation to the signed result: the launch's
      outcome, concluded. */
  function ProcessJob(job: VerificationJob, d: Daemon, untar: seq<byte> -> Result<seq<Member>>,
                      sqrt: real -> real, signer: ResultSigner, id: Uuid, now: string): (run: JobRun)
    ensures run.trace == Launch(job, d, untar).trace
    ensures Launch(job, d, untar).result.Err? ==> run.result == Err(Launch(job, d, untar).result.error)
    ensures run.result.Ok? ==> run.result.value.runnerImage == DefaultImage(GetRunner(job.runnerType))
    ensures run.result.Ok? ==> VerifyResult(signer, run.result.value, run.result.value.signature) == Ok(true)
  {
    var r := GetRunner(job.runnerType);
    Conclude(signer, id, now, job, r, DefaultImage(r), Launch(job, d, untar), sqrt)
  }

  /** The sandbox outcome turned into the job's run: a raise passes
      through, a result is finished and signed. */
  function Conclude(signer: ResultSigner, id: Uuid, now: string, job: VerificationJob, r: Runner,
                    image: string, o: Outcome, sqrt: real -> real): (run: JobRun)
    ensures run.trace == o.trace
    ensures o.result.Err? ==> run.result == Err(o.result.error)
    ensures run.result.Ok? ==> run.result.value.runnerImage == image
    ensures run.result.Ok? ==> VerifyResult(signer, run.result.value, run.result.value.signature) == Ok(true)
  {
    match o.result
    case Err(e) => JobRun(Err(e), o.trace)
    case Ok(sr) =>
      var res := Finish(signer, id, now, job, r, image, sr, sqrt);
      SignThenVerify(signer, res, res);
      JobRun(Ok(res), o.trace)
  }

  /** A valid job with a well-formed environment spec always reaches the
      daemon: the runner's image is allowed, its file names are safe and
      its limits make a valid policy, so the container is created whenever
      the daemon accepts it. */
  lemma ValidJobReachesSandbox(job: VerificationJob, d: Daemon,
                               untar: seq<byte> -> Result<seq<Member>>, sqrt: real -> real,
                               signer: ResultSigner, id: Uuid, now: string)
    requires job.Valid() && EnvVars(job.environmentSpec).Ok? && d.create.Ok?
    ensures ProcessJob(job, d, untar, sqrt, signer, id, now).trace != []
  {
    ValidJobLaunches(job, d, untar);
  }

  /** The launch of a valid job creates its container. */
  lemma ValidJobLaunches(job: VerificationJob, d: Daemon, untar: seq<byte> -> Result<seq<Member>>)
    requires job.Valid() && EnvVars(job.environmentSpec).Ok? && d.create.Ok?
    ensures Launch(job, d, untar).trace != []
  {
    var r := GetRunner(job.runnerType);
    var p := Prepare(r, job).value;
    PolicyFromValidLimits(job.resourceLimits);
    forall k | k in p.codeFiles
      ensures !UnsafePath(k)
    {
      CodeFileNamesSafe(r, job, k);
    }
  }

  /** The operations `run_worker` makes on the queue for one message. */
  datatype QueueOp =
    | SetStatus(jobId: Uuid, status: JobStatus)
    | StoreResult(jobId: Uuid, result: VerificationResult)
    | Acknowledge(msgId: string)

  /** One dequeued message, once its job has been processed to `result`:
      the job was marked RUNNING first; a raise marks it FAILED; the
      message is acknowledged in `finally`. Queue calls themselves are taken
      to succeed. */
  function Settle(msgId: string, jobId: Uuid, result: Result<VerificationResult>): (ops: seq<QueueOp>)
    ensures ops != [] && ops[0] == SetStatus(jobId, Running)
    ensures ops[|ops| - 1] == Acknowledge(msgId)
    ensures forall i | 0 <= i < |ops| - 1 :: !ops[i].Acknowledge?
    ensures SetStatus(jobId, Failed) in ops <==> result.Err?
    ensures forall i | 0 <= i < |ops| && ops[i].StoreResult? :: result == Ok(ops[i].result)
  {
    var outcome := match result
      case Ok(res) => StoreResult(jobId, res)
      case Err(_) => SetStatus(jobId, Failed);
    [SetStatus(jobId, Running), outcome, Acknowledge(msgId)]
  }

  /** `run_worker`'s handling of one message. */
  function HandleMessage(msgId: string, job: VerificationJob, d: Daemon,
                         untar: seq<byte> -> Result<seq<Member>>, sqrt: real -> real,
                         signer: ResultSigner, id: Uuid, now: string): (ops: seq<QueueOp>)
    ensures forall i | 0 <= i < |ops| && ops[i].StoreResult? ::
              VerifyResult(signer, ops[i].result, ops[i].result.signature) == Ok(true)
  {
    var run := ProcessJob(job, d, untar, sqrt, signer, id, now);
    var ops := Settle(msgId, job.id, run.result);
    assert forall i | 0 <= i < |ops| && ops[i].StoreResult? :: ops[i].result == run.result.value;
    ops
  }

  /** A failure other than an API error while removing the container
      fails the job, however the run itself went. */
  lemma RemoveFailureFailsJob(msgId: string, job: VerificationJob, d: Daemon,
                              untar: seq<byte> -> Result<seq<Member>>, sqrt: real -> real,
                              signer: ResultSigner, id: Uuid, now: string)
    requires Launch(job, d, untar).trace != [] && d.remove.Err?
    ensures SetStatus(job.id, Failed) in HandleMessage(msgId, job, d, untar, sqrt, signer, id, now)
  {
    var run := ProcessJob(job, d, untar, sqrt, signer, id, now);
    assert run.result == Err(d.remove.error);
  }

  /** The status a job is left in by a list of queue operations; storing a
      result marks the job COMPLETED. */
  function FinalStatus(ops: seq<QueueOp>, initial: JobStatus): JobStatus
  {
    if ops == [] then initial
    else
      var last := ops[|ops| - 1];
      match last
      case SetStatus(_, st) => st
      case StoreResult(_, _) => Completed
      case Acknowledge(_) => FinalStatus(ops[..|ops| - 1], initial)
  }

  /** Every message is acknowledged exactly once, and leaves its job
      COMPLETED with a stored result or FAILED, never RUNNING. */
  lemma MessageSettlesJob(msgId: string, jobId: Uuid, result: Result<VerificationResult>,
                          initial: JobStatus)
    ensures var ops := Settle(msgId, jobId, result);
      |set i | 0 <= i < |ops| && ops[i].Acknowledge?| == 1
      && FinalStatus(ops, initial) == (if result.Ok? then Completed else Failed)
  {
    var ops := Settle(msgId, jobId, result);
    assert (set i | 0 <= i < |ops| && ops[i].Acknowledge?) == {|ops| - 1};
    assert ops[..|ops| - 1] == ops[..2];
  }
}
