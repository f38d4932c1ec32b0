/** `ContainerSandbox.run`: the life of one container, from the checks made
    before anything is created to the removal that always follows creation.
    The Docker daemon is a record of the answers it gives to each call, and
    the tar reader is a parameter; the model returns the outcome together
    with the trace of container operations. */
module Sandbox {
  import opened Wrappers
  import opened Utf8
  import opened Container
  import opened Security

  datatype SandboxResult = SandboxResult(
    exitCode: int,
    stdout: string,
    stderr: string,
    outputFiles: Files,
    // `execution_time_seconds`, `round(elapsed, 3)`, as whole milliseconds
    executionMillis: nat,
    timedOut: bool)

  /** How `container.wait` ends: with a status (the `"StatusCode"` entry,
      if any), with one of the errors that mean a timeout or a lost
      connection, or with any other exception. */
  datatype WaitOutcome = Exited(statusCode: Option<int>) | WaitFailed | WaitRaised(error: Error)

  /** How fetching `/output/` ends: the directory is missing, the daemon
      fails while sending it, or it arrives as a stream of chunks. */
  datatype ArchiveOutcome = NoOutputDir | ArchiveFailed | Chunks(chunks: seq<seq<byte>>)

  /** The daemon's answer to each call `run` makes. `run` swallows an API
      error from `kill` or `remove`, so such an answer is `Ok`; an `Err`
      there is any other failure (a lost connection, a read timeout), which
      propagates. The wall-clock time of the run is read in whole
      milliseconds. */
  datatype Daemon = Daemon(
    create: Result<()>,
    start: Result<()>,
    wait: WaitOutcome,
    kill: Result<()>,
    remove: Result<()>,
    stdout: Result<seq<byte>>,
    stderr: Result<seq<byte>>,
    archive: ArchiveOutcome,
    elapsedMillis: nat)

  /** The container operations `run` performs, in order. */
  datatype Event =
    | Created(image: string, command: seq<string>, env: map<string, string>,
              config: HostConfig, dataMounted: bool)
    | Started
    | Waited
    | Killed
    | ReadLogs
    | FetchedArchive
    | Removed

  datatype Outcome = Outcome(result: Result<SandboxResult>, trace: seq<Event>)

  predicate HasUnsafeKey<V>(files: map<string, V>)
  {
    exists k | k in files :: UnsafePath(k)
  }

  /** Captured bytes as text: truncated to 64 KB, decoded with replacement,
      sanitised. */
  function CaptureText(raw: seq<byte>): (t: string)
    ensures forall k | 0 <= k < |t| :: !IsControl(t[k])
  {
    Sanitize(DecodeReplace(TruncateBytes(raw, MaxOutputBytes)))
  }

  /** However much a container prints, the captured text is at most 64 KB
      plus the truncation marker long. */
  lemma CaptureTextBounded(raw: seq<byte>)
    ensures |CaptureText(raw)| <= MaxOutputBytes + |TruncationMarker|
  {
    var cut := TruncateBytes(raw, MaxOutputBytes);
    DecodeReplaceShorter(cut, 0);
    SanitizeKeepsLayout(DecodeReplace(cut), '\n');
    SubseqShorter(CaptureText(raw), DecodeReplace(cut));
  }

  /** The output files: none when the directory is missing or the daemon
      fails; otherwise the chunks within the size cap, read as a tar
      archive, filtered and renamed. A failure to read the archive is not
      caught. */
  function CollectOutputs(archive: ArchiveOutcome,
                          untar: seq<byte> -> Result<seq<Member>>): (r: Result<Files>)
    ensures archive.NoOutputDir? || archive.ArchiveFailed? ==> r == Ok([])
    ensures r.Ok? ==> DistinctKeys(r.value)
    ensures r.Ok? ==> forall i | 0 <= i < |r.value| :: r.value[i].0 != ""
  {
    match archive
    case NoOutputDir => Ok([])
    case ArchiveFailed => Ok([])
    case Chunks(cs) =>
      var members :- untar(Concat(cs[..KeptChunks(cs)]));
      var files := CleanNames(ExtractMembers(members));
      assert forall i | 0 <= i < |files| :: files[i].0 != "" by {
        forall i | 0 <= i < |files|
          ensures files[i].0 != ""
        {
          assert HasKey(files, files[i].0);
        }
      }
      Ok(files)
  }

  /** The exit code and timed-out flag `wait` leaves behind: the status
      (or -1 when the daemon gave none), or -1 and the flag after a
      timeout; any other exception propagates. */
  function WaitResult(w: WaitOutcome): (r: Result<(int, bool)>)
    ensures w.Exited? ==> r == Ok((w.statusCode.GetOr(-1), false))
    ensures w.WaitFailed? ==> r == Ok((-1, true))
    ensures w.WaitRaised? ==> r == Err(w.error)
  {
    match w
    case Exited(sc) => Ok((sc.GetOr(-1), false))
    case WaitFailed => Ok((-1, true))
    case WaitRaised(e) => Err(e)
  }

  /** After a finished wait: read the logs, fetch the outputs. */
  function AfterWait(d: Daemon, exitCode: int, timedOut: bool,
                     untar: seq<byte> -> Result<seq<Member>>): (r: Result<SandboxResult>)
    ensures r.Ok? ==> r.value.exitCode == exitCode && r.value.timedOut == timedOut
    ensures r.Ok? ==> r.value.executionMillis == d.elapsedMillis
    ensures r.Ok? <==> d.stdout.Ok? && d.stderr.Ok? && CollectOutputs(d.archive, untar).Ok?
  {
    if d.stdout.Err? then Err(d.stdout.error)
    else if d.stderr.Err? then Err(d.stderr.error)
    else
      var files :- CollectOutputs(d.archive, untar);
      Ok(SandboxResult(exitCode, CaptureText(d.stdout.value), CaptureText(d.stderr.value), files,
                       d.elapsedMillis, timedOut))
  }

  /** The operations after a finished wait. */
  function AfterWaitEvents(d: Daemon): (t: seq<Event>)
    ensures Removed !in t
  {
    if d.stdout.Err? || d.stderr.Err? then [ReadLogs] else [ReadLogs, FetchedArchive]
  }

  /** Everything after creation: start, wait (killing on a timeout, where a
      failed kill propagates), read the logs, fetch the outputs. Returns the
      outcome and the operations performed, removal excluded. */
  function AfterCreate(d: Daemon, untar: seq<byte> -> Result<seq<Member>>): (o: Outcome)
    ensures Removed !in o.trace
    ensures o.result.Ok? && d.wait.Exited? ==>
              !o.result.value.timedOut && o.result.value.exitCode == d.wait.statusCode.GetOr(-1)
    ensures o.result.Ok? && d.wait.WaitFailed? ==>
              o.result.value.timedOut && o.result.value.exitCode == -1 && Killed in o.trace
    ensures d.start.Ok? && d.wait.WaitRaised? ==> o.result == Err(d.wait.error)
    ensures d.start.Ok? && d.wait.WaitFailed? && d.kill.Err? ==>
              o == Outcome(Err(d.kill.error), [Started, Waited, Killed])
    ensures o.result.Ok? ==> o.result.value.executionMillis == d.elapsedMillis
  {
    if d.start.Err? then Outcome(Err(d.start.error), [])
    else
      var waitEvents := if d.wait.WaitFailed? then [Started, Waited, Killed] else [Started, Waited];
      if d.wait.WaitFailed? && d.kill.Err? then Outcome(Err(d.kill.error), waitEvents)
      else
        match WaitResult(d.wait)
        case Err(e) => Outcome(Err(e), waitEvents)
        case Ok(w) => Outcome(AfterWait(d, w.0, w.1, untar), waitEvents + AfterWaitEvents(d))
  }

  /** `run(image, command, code_files, data_files, policy, env_vars)`. */
  function Run<V>(image: string, command: seq<string>, codeFiles: map<string, V>,
               dataFiles: Option<map<string, seq<byte>>>, policy: SecurityPolicy,
               envVars: Option<map<string, string>>, d: Daemon,
               untar: seq<byte> -> Result<seq<Member>>): (o: Outcome)
    requires policy.Valid()
    ensures image !in AllowedImages ==> o.result.Err? && o.result.error.ValueError? && o.trace == []
    ensures HasUnsafeKey(codeFiles) ==> o.result.Err? && o.result.error.ValueError? && o.trace == []
    ensures dataFiles.Some? && |dataFiles.value| > 0 && HasUnsafeKey(dataFiles.value) ==>
              o.result.Err? && o.result.error.ValueError? && o.trace == []
    ensures o.trace != [] ==> o.trace[0].Created? && o.trace[|o.trace| - 1] == Removed
    ensures o.trace != [] ==> o.trace[0].env == if envVars.Some? then FilterEnv(envVars.value) else map[]
    ensures o.trace != [] && d.remove.Err? ==> o.result == Err(d.remove.error)
    ensures o.trace != [] && d.remove.Ok? ==> o.result == AfterCreate(d, untar).result
  {
    var withData := dataFiles.Some? && |dataFiles.value| > 0;
    if image !in AllowedImages then Outcome(Err(ValueError("Image is not in the allowed image list")), [])
    else if HasUnsafeKey(codeFiles) then Outcome(Err(ValueError("Path traversal in code_files key")), [])
    else if withData && HasUnsafeKey(dataFiles.value) then
      Outcome(Err(ValueError("Path traversal in data_files key")), [])
    else
      var config := ToContainerConfig(policy);
      var env := if envVars.Some? then FilterEnv(envVars.value) else map[];
      if d.create.Err? then Outcome(Err(d.create.error), [])
      else
        var rest := AfterCreate(d, untar);
        // a failure raised while removing replaces whatever the body produced
        var result := if d.remove.Err? then Err(d.remove.error) else rest.result;
        Outcome(result, [Created(image, command, env, config, withData)] + rest.trace + [Removed])
  }

  /** A container, once created, is removed exactly once, as the last
      operation, whatever happens in between. */
  lemma RemovedOnceAtEnd<V>(image: string, command: seq<string>, codeFiles: map<string, V>,
                         dataFiles: Option<map<string, seq<byte>>>, policy: SecurityPolicy,
                         envVars: Option<map<string, string>>, d: Daemon,
                         untar: seq<byte> -> Result<seq<Member>>, i: nat)
    requires policy.Valid()
    requires i < |Run(image, command, codeFiles, dataFiles, policy, envVars, d, untar).trace|
    ensures var t := Run(image, command, codeFiles, dataFiles, policy, envVars, d, untar).trace;
      t[i] == Removed <==> i == |t| - 1
  {
  }

  /** The created container runs an allowed image with the network off,
      the policy's memory limit, and no blocked environment variable. */
  lemma CreatedConfined<V>(image: string, command: seq<string>, codeFiles: map<string, V>,
                        dataFiles: Option<map<string, seq<byte>>>, policy: SecurityPolicy,
                        envVars: Option<map<string, string>>, d: Daemon,
                        untar: seq<byte> -> Result<seq<Member>>)
    requires policy.Valid()
    requires Run(image, command, codeFiles, dataFiles, policy, envVars, d, untar).trace != []
    ensures var c := Run(image, command, codeFiles, dataFiles, policy, envVars, d, untar).trace[0];
      c.image in AllowedImages && c.image == image
      && c.config.networkMode == "none"
      && ParseMegabytes(c.config.memLimit) == Some(policy.memoryLimitMb as nat)
      && (forall k | k in c.env :: Upper(k) !in BlockedEnvVars)
      && (envVars.Some? ==> forall k | k in c.env :: k in envVars.value && c.env[k] == envVars.value[k])
      && !HasUnsafeKey(codeFiles)
  {
  }

  /** A successful run reports the waited status, or -1 with the timed-out
      flag after a kill; its streams hold no control characters. */
  lemma RunResultShape<V>(image: string, command: seq<string>, codeFiles: map<string, V>,
                       dataFiles: Option<map<string, seq<byte>>>, policy: SecurityPolicy,
                       envVars: Option<map<string, string>>, d: Daemon,
                       untar: seq<byte> -> Result<seq<Member>>)
    requires policy.Valid()
    requires Run(image, command, codeFiles, dataFiles, policy, envVars, d, untar).result.Ok?
    ensures var o := Run(image, command, codeFiles, dataFiles, policy, envVars, d, untar);
      var r := o.result.value;
      (d.wait.WaitFailed? ==> r.timedOut && r.exitCode == -1 && Killed in o.trace)
      && (d.wait.Exited? ==> !r.timedOut && r.exitCode == d.wait.statusCode.GetOr(-1))
      && (forall k | 0 <= k < |r.stdout| :: !IsControl(r.stdout[k]))
      && (forall k | 0 <= k < |r.stderr| :: !IsControl(r.stderr[k]))
      && DistinctKeys(r.outputFiles)
      && (forall i | 0 <= i < |r.outputFiles| :: r.outputFiles[i].0 != "")
  {
  }
}
