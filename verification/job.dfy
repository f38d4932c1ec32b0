/** The job record and its validated parts: resource limits, expected
    outputs, and the job itself with its defaults. Pydantic validation
    failures are modelled as `Err(ValueError(..))`. */
module Job {
  import opened Wrappers
  import opened Enums
  import opened Ids
  import Utf8

  /** Hard limits the sandbox is to enforce; every field must be positive. */
  datatype ResourceLimits = ResourceLimits(
    cpuSeconds: int,
    memoryMb: int,
    diskMb: int,
    timeoutSeconds: int,
    pidsLimit: int)
  {
    predicate Valid()
    {
      cpuSeconds > 0 && memoryMb > 0 && diskMb > 0 && timeoutSeconds > 0 && pidsLimit > 0
    }
  }

  const DefaultLimits := ResourceLimits(120, 2048, 256, 120, 64)

  /** Field validation (`gt=0` on every field), in field order. */
  function NewResourceLimits(cpuSeconds: int, memoryMb: int, diskMb: int,
                             timeoutSeconds: int, pidsLimit: int): (r: Result<ResourceLimits>)
    ensures r.Ok? <==> cpuSeconds > 0 && memoryMb > 0 && diskMb > 0
                       && timeoutSeconds > 0 && pidsLimit > 0
    ensures r.Ok? ==>
              r.value.Valid()
              && r.value == ResourceLimits(cpuSeconds, memoryMb, diskMb, timeoutSeconds, pidsLimit)
  {
    if cpuSeconds <= 0 then Err(ValueError("cpu_seconds must be greater than 0"))
    else if memoryMb <= 0 then Err(ValueError("memory_mb must be greater than 0"))
    else if diskMb <= 0 then Err(ValueError("disk_mb must be greater than 0"))
    else if timeoutSeconds <= 0 then Err(ValueError("timeout_seconds must be greater than 0"))
    else if pidsLimit <= 0 then Err(ValueError("pids_limit must be greater than 0"))
    else Ok(ResourceLimits(cpuSeconds, memoryMb, diskMb, timeoutSeconds, pidsLimit))
  }

  /** The default limits are themselves valid. */
  lemma DefaultLimitsValid()
    ensures DefaultLimits.Valid()
    ensures NewResourceLimits(120, 2048, 256, 120, 64) == Ok(DefaultLimits)
  {
  }

  /** An expected artefact. `tolerance` is never negative. */
  datatype ExpectedOutput = ExpectedOutput(
    name: string,
    content: Option<seq<Utf8.byte>>,
    contentHash: Option<string>,
    comparisonMethod: ComparisonMethod,
    tolerance: Option<real>)
  {
    predicate Valid() { tolerance.Some? ==> tolerance.value >= 0.0 }
  }

  /** Construction with defaults: no content, no hash, EXACT, no tolerance. */
  function NewExpectedOutput(name: string, content: Option<seq<Utf8.byte>>,
                             contentHash: Option<string>, cmpMethod: Option<ComparisonMethod>,
                             tolerance: Option<real>): (r: Result<ExpectedOutput>)
    ensures r.Ok? <==> (tolerance.Some? ==> tolerance.value >= 0.0)
    ensures r.Ok? ==> r.value.Valid() && r.value.name == name && r.value.content == content
    ensures r.Ok? && cmpMethod.None? ==> r.value.comparisonMethod == Exact
    ensures r.Ok? && cmpMethod.Some? ==> r.value.comparisonMethod == cmpMethod.value
  {
    if tolerance.Some? && tolerance.value < 0.0 then
      Err(ValueError("tolerance must be greater than or equal to 0"))
    else
      Ok(ExpectedOutput(name, content, contentHash, cmpMethod.GetOr(Exact), tolerance))
  }

  /** The bytes the worker compares against: `expected.content or b""`. */
  function ExpectedBytes(e: ExpectedOutput): (b: seq<Utf8.byte>)
    ensures e.content.Some? ==> b == e.content.value
    ensures e.content.None? ==> b == []
  {
    match e.content
    case Some(c) => c
    case None => []
  }

  /** An element of a list given to `dict.update`: a key/value pair, an
      iterable of some length other than two (a list, or a string of one
      or of three or more characters), or a value that cannot be iterated
      (a number, a boolean, `null`). A two-character string is the pair of
      its characters. */
  datatype SpecItem =
    | Pair(key: string, value: string)
    | WrongLength
    | NotIterableItem

  /** A value inside `environment_spec`. Only the `"env"` entry is ever read,
      by `dict.update`: a mapping is merged; a list is read as key/value
      pairs; a string is iterated character by character, so only the empty
      string is accepted; anything else cannot be iterated. */
  datatype SpecValue =
    | StrMap(m: map<string, string>)
    | Items(items: seq<SpecItem>)
    | Text(s: string)
    | NotIterable

  datatype VerificationJob = VerificationJob(
    id: Uuid,
    claimId: Uuid,
    runnerType: RunnerType,
    codeHash: string,
    codeContent: string,
    environmentSpec: Option<map<string, SpecValue>>,
    expectedOutputs: Option<seq<ExpectedOutput>>,
    resourceLimits: ResourceLimits,
    status: JobStatus,
    createdAt: string,
    updatedAt: string,
    submittedBy: string)
  {
    predicate Valid()
    {
      resourceLimits.Valid()
      && (expectedOutputs.Some? ==>
            forall i | 0 <= i < |expectedOutputs.value| :: expectedOutputs.value[i].Valid())
    }
  }

  /** A new job: the id is freshly generated (`freshId`, from `uuid4`), the
      two timestamps are two separate readings of the clock (`createdNow`,
      then `updatedNow`, one per default factory), the status is PENDING and
      the limits default when not given. */
  function NewJob(freshId: Uuid, createdNow: string, updatedNow: string, claimId: Uuid,
                  runnerType: RunnerType, codeHash: string, codeContent: string,
                  submittedBy: string, environmentSpec: Option<map<string, SpecValue>>,
                  expectedOutputs: Option<seq<ExpectedOutput>>,
                  limits: Option<ResourceLimits>): (j: VerificationJob)
    ensures j.status == Pending && j.id == freshId
    ensures j.createdAt == createdNow && j.updatedAt == updatedNow
    ensures limits.None? ==> j.resourceLimits == DefaultLimits
    ensures limits.Some? ==> j.resourceLimits == limits.value
    ensures j.claimId == claimId && j.runnerType == runnerType && j.codeContent == codeContent
    ensures j.codeHash == codeHash && j.submittedBy == submittedBy
    ensures j.environmentSpec == environmentSpec && j.expectedOutputs == expectedOutputs
  {
    VerificationJob(freshId, claimId, runnerType, codeHash, codeContent, environmentSpec,
                    expectedOutputs, limits.GetOr(DefaultLimits), Pending, createdNow, updatedNow,
                    submittedBy)
  }
}
