/** The language runners: which runner serves a runner type, how a job
    becomes files and a command in a given image, and how an exit code
    becomes a success flag and a claimed level. */
module Runners {
  import opened Wrappers
  import opened Enums
  import opened Utf8
  import opened Job
  import Container

  datatype Runner = PythonRunner | RRunner | JuliaRunner | LeanRunner | SymbolicRunner

  /** `_RUNNER_MAP`: it is defined on every runner type. */
  function GetRunner(t: RunnerType): (r: Runner)
    ensures r == PythonRunner <==> t == PythonScript || t == PythonNotebook
    ensures r == RRunner <==> t == RScript || t == RMarkdown
    ensures r == JuliaRunner <==> t == Julia
    ensures r == LeanRunner <==> t == Lean4
    ensures r == SymbolicRunner <==> t == Sympy || t == Sage
  {
    match t
    case PythonScript => PythonRunner
    case PythonNotebook => PythonRunner
    case RScript => RRunner
    case RMarkdown => RRunner
    case Julia => JuliaRunner
    case Lean4 => LeanRunner
    case Sympy => SymbolicRunner
    case Sage => SymbolicRunner
  }

  /** `get_runner` given the type's wire value: a value outside the map
      raises ValueError. */
  function GetRunnerByValue(s: string): (r: Result<Runner>)
    ensures r.Ok? <==> RunnerTypeOf(s).Some?
    ensures r.Ok? ==> r.value == GetRunner(RunnerTypeOf(s).value)
    ensures r.Err? ==> r.error.ValueError?
  {
    match RunnerTypeOf(s)
    case None => Err(ValueError("Unsupported runner type"))
    case Some(t) => Ok(GetRunner(t))
  }

  /** Every runner type's wire value finds its runner again. */
  lemma GetRunnerByValueOfType(t: RunnerType)
    ensures GetRunnerByValue(RunnerTypeValue(t)) == Ok(GetRunner(t))
  {
    RunnerTypeOfValue(t);
  }

  /** The image each runner selects; symbolic work runs in the Python image. */
  function DefaultImage(r: Runner): (image: string)
    ensures image in Container.AllowedImages
    ensures r == SymbolicRunner || r == PythonRunner ==> image == Container.PythonImage
  {
    match r
    case PythonRunner => Container.PythonImage
    case RRunner => Container.RImage
    case JuliaRunner => Container.JuliaImage
    case LeanRunner => Container.Lean4Image
    case SymbolicRunner => Container.PythonImage
  }

  /** The class-level timeout of each runner, in seconds. */
  function DefaultTimeout(r: Runner): (seconds: nat)
    ensures seconds > 0
    ensures r == LeanRunner <==> seconds == 300
    ensures r == SymbolicRunner <==> seconds == 60
  {
    match r
    case LeanRunner => 300
    case SymbolicRunner => 60
    case _ => 120
  }

  /** A code file's content: the job's own source, or the fixed notebook
      wrapper (which converts the notebook and runs the result). */
  datatype CodeText = Source(text: string) | NotebookWrapper

  datatype PreparedExecution = PreparedExecution(
    image: string,
    command: seq<string>,
    codeFiles: map<string, CodeText>,
    dataFiles: Option<map<string, seq<byte>>>,
    envVars: map<string, string>)

  /** `(k, v)` is the last pair for key `k` in `ps`. */
  predicate LastPairFor(ps: seq<(string, string)>, k: string, v: string)
  {
    exists i | 0 <= i < |ps| :: ps[i] == (k, v) && forall j | i < j < |ps| :: ps[j].0 != k
  }

  /** `dict(pairs)` / `d.update(pairs)`: a later pair for the same key wins. */
  function PairsToMap(ps: seq<(string, string)>): (m: map<string, string>)
    ensures forall k :: k in m <==> exists i | 0 <= i < |ps| :: ps[i].0 == k
  {
    if ps == [] then map[]
    else
      var init := ps[..|ps| - 1];
      assert forall i | 0 <= i < |init| :: init[i] == ps[i];
      PairsToMap(init)[ps[|ps| - 1].0 := ps[|ps| - 1].1]
  }

  /** A pair for another key leaves the last pair for `k` in place. */
  lemma LastPairExtend(init: seq<(string, string)>, p: (string, string), k: string, v: string)
    requires LastPairFor(init, k, v) && p.0 != k
    ensures LastPairFor(init + [p], k, v)
  {
    var ps := init + [p];
    var i :| 0 <= i < |init| && init[i] == (k, v) && forall j | i < j < |init| :: init[j].0 != k;
    assert ps[i] == (k, v);
    assert forall j | i < j < |ps| :: ps[j].0 != k by {
      forall j | i < j < |ps|
        ensures ps[j].0 != k
      {
        if j < |init| {
          assert ps[j] == init[j];
        }
      }
    }
  }

  /** Each key of `PairsToMap(ps)` holds the value of its last pair. */
  lemma {:induction false} PairsToMapLastWins(ps: seq<(string, string)>, k: string)
    requires k in PairsToMap(ps)
    ensures LastPairFor(ps, k, PairsToMap(ps)[k])
  {
    var n := |ps|;
    var init, last := ps[..n - 1], ps[n - 1];
    assert ps == init + [last];
    var m := PairsToMap(init);
    assert PairsToMap(ps) == m[last.0 := last.1];
    if last.0 != k {
      assert k in m;
      PairsToMapLastWins(init, k);
      LastPairExtend(init, last, k, m[k]);
    } else {
      assert ps[n - 1] == (k, PairsToMap(ps)[k]);
    }
  }

  /** The pairs of a list given to `dict.update`, read in order. The first
      element that is not a pair raises: TypeError when it cannot be
      iterated, ValueError when it has the wrong length. */
  function ItemPairs(items: seq<SpecItem>): (r: Result<seq<(string, string)>>)
    ensures r.Ok? <==> forall i | 0 <= i < |items| :: items[i].Pair?
    ensures r.Ok? ==> |r.value| == |items|
                      && forall i | 0 <= i < |items| :: r.value[i] == (items[i].key, items[i].value)
  {
    if items == [] then Ok([])
    else
      match items[0]
      case NotIterableItem =>
        Err(TypeError("cannot convert dictionary update sequence element to a sequence"))
      case WrongLength =>
        Err(ValueError("dictionary update sequence element has the wrong length; 2 is required"))
      case Pair(k, v) =>
        var rest :- ItemPairs(items[1..]);
        assert forall i | 1 <= i < |items| :: items[i] == items[1..][i - 1];
        Ok([(k, v)] + rest)
  }

  /** A failure is decided by the first element that is not a pair: one
      that cannot be iterated raises TypeError, one of the wrong length
      ValueError. */
  lemma {:induction false} ItemPairsError(items: seq<SpecItem>, i: nat)
    requires i < |items| && !items[i].Pair? && forall j | 0 <= j < i :: items[j].Pair?
    ensures ItemPairs(items).Err?
    ensures ItemPairs(items).error.TypeError? <==> items[i].NotIterableItem?
    ensures ItemPairs(items).error.ValueError? <==> items[i].WrongLength?
  {
    if i > 0 {
      assert items[1..][i - 1] == items[i];
      assert forall j | 0 <= j < i - 1 :: items[1..][j] == items[j + 1];
      ItemPairsError(items[1..], i - 1);
    }
  }

  /** Whether `dict.update` accepts the value. */
  predicate Updatable(v: SpecValue)
  {
    match v
    case StrMap(_) => true
    case Items(items) => forall i | 0 <= i < |items| :: items[i].Pair?
    case Text(t) => t == []
    case NotIterable => false
  }

  /** The environment every runner builds: empty unless the job's
      environment spec is present, non-empty and holds `"env"`; that entry
      is merged into an empty dictionary with `dict.update`. */
  function EnvVars(spec: Option<map<string, SpecValue>>): (r: Result<map<string, string>>)
    ensures r.Err? <==> spec.Some? && "env" in spec.value && !Updatable(spec.value["env"])
    ensures spec.None? || "env" !in spec.value ==> r == Ok(map[])
    ensures spec.Some? && "env" in spec.value ==>
              match spec.value["env"]
              case StrMap(m) => r == Ok(m)
              case Items(items) => r.Ok? ==> r.value == PairsToMap(ItemPairs(items).value)
              case Text(t) => (t == [] ==> r == Ok(map[])) && (t != [] ==> r.Err? && r.error.ValueError?)
              case NotIterable => r.Err? && r.error.TypeError?
    ensures r.Err? && spec.value["env"].Items? ==> r == Err(ItemPairs(spec.value["env"].items).error)
  {
    if spec.Some? && |spec.value| > 0 && "env" in spec.value then
      match spec.value["env"]
      case StrMap(m) => Ok(m)
      case Items(items) =>
        var ps :- ItemPairs(items);
        Ok(PairsToMap(ps))
      case Text(t) =>
        if t == [] then Ok(map[])
        else Err(ValueError("dictionary update sequence element #0 has length 1; 2 is required"))
      case NotIterable => Err(TypeError("object is not iterable"))
    else Ok(map[])
  }

  /** The file the job's code is written to. */
  function CodeFileName(r: Runner, t: RunnerType): string
  {
    match r
    case PythonRunner => if t == PythonNotebook then "notebook.ipynb" else "run.py"
    case RRunner => if t == RMarkdown then "input.Rmd" else "script.R"
    case JuliaRunner => "script.jl"
    case LeanRunner => "proof.lean"
    case SymbolicRunner => "symbolic.py"
  }

  const RenderCommand: string := "rmarkdown::render('/code/input.Rmd', output_dir='/output/')"

  /** Where a code file is mounted in the container. */
  function CodePath(name: string): string
  {
    "/code/" + name
  }

  /** `runner.prepare(job)`. The runner's own branches read only the job's
      runner type, code and environment spec. */
  function Prepare(r: Runner, job: VerificationJob): (p: Result<PreparedExecution>)
    ensures p.Ok? <==> EnvVars(job.environmentSpec).Ok?
    ensures p.Ok? ==>
              p.value.image == DefaultImage(r)
              && p.value.dataFiles.None?
              && p.value.envVars == EnvVars(job.environmentSpec).value
              && CodeFileName(r, job.runnerType) in p.value.codeFiles
              && p.value.codeFiles[CodeFileName(r, job.runnerType)] == Source(job.codeContent)
              && forall k | k in p.value.codeFiles && k != CodeFileName(r, job.runnerType) ::
                   p.value.codeFiles[k] == NotebookWrapper
    ensures p.Ok? ==>
              p.value.codeFiles.Keys ==
                if r == PythonRunner && job.runnerType == PythonNotebook
                then {CodeFileName(r, job.runnerType), "run.py"}
                else {CodeFileName(r, job.runnerType)}
  {
    var env :- EnvVars(job.environmentSpec);
    var plan := match r
      case PythonRunner =>
        if job.runnerType == PythonNotebook then
          (map["notebook.ipynb" := Source(job.codeContent), "run.py" := NotebookWrapper],
           ["python", CodePath("run.py")])
        else (map["run.py" := Source(job.codeContent)], ["python", CodePath("run.py")])
      case RRunner =>
        if job.runnerType == RMarkdown then
          (map["input.Rmd" := Source(job.codeContent)], ["Rscript", "-e", RenderCommand])
        else (map["script.R" := Source(job.codeContent)], ["Rscript", CodePath("script.R")])
      case JuliaRunner => (map["script.jl" := Source(job.codeContent)], ["julia", CodePath("script.jl")])
      case LeanRunner => (map["proof.lean" := Source(job.codeContent)], ["lean", CodePath("proof.lean")])
      case SymbolicRunner =>
        (map["symbolic.py" := Source(job.codeContent)], ["python", CodePath("symbolic.py")]);
    Ok(PreparedExecution(DefaultImage(r), plan.1, plan.0, None, env))
  }

  /** The program each runner starts in the container. */
  function Interpreter(r: Runner): string
  {
    match r
    case PythonRunner => "python"
    case RRunner => "Rscript"
    case JuliaRunner => "julia"
    case LeanRunner => "lean"
    case SymbolicRunner => "python"
  }

  /** The command starts the runner's interpreter. An R Markdown job is
      rendered through `Rscript -e` with its document written as
      `input.Rmd`; every other job passes the interpreter one file
      under `/code/`. */
  lemma PrepareCommand(r: Runner, job: VerificationJob)
    requires Prepare(r, job).Ok?
    ensures var p := Prepare(r, job).value;
      && p.command != [] && p.command[0] == Interpreter(r)
      && (r == RRunner && job.runnerType == RMarkdown ==>
            p.command == ["Rscript", "-e", RenderCommand]
            && "input.Rmd" in p.codeFiles && p.codeFiles["input.Rmd"] == Source(job.codeContent))
      && (!(r == RRunner && job.runnerType == RMarkdown) ==> |p.command| == 2)
  {
  }

  /** The command runs a file that is placed under `/code/`: the job's own
      code, except for a notebook, where it runs the wrapper beside it, and
      for R Markdown, which is rendered by name through `Rscript -e`. */
  lemma PrepareRunsCodeFile(r: Runner, job: VerificationJob)
    requires Prepare(r, job).Ok?
    requires !(r == RRunner && job.runnerType == RMarkdown)
    ensures var p := Prepare(r, job).value;
      |p.command| == 2
      && exists k | k in p.codeFiles :: p.command[1] == CodePath(k)
                                     && (job.runnerType != PythonNotebook ==>
                                           p.codeFiles[k] == Source(job.codeContent))
  {
    var p := Prepare(r, job).value;
    match r
    case PythonRunner =>
      assert "run.py" in p.codeFiles && p.command[1] == CodePath("run.py");
    case RRunner =>
      assert "script.R" in p.codeFiles && p.command[1] == CodePath("script.R");
    case JuliaRunner =>
      assert "script.jl" in p.codeFiles && p.command[1] == CodePath("script.jl");
    case LeanRunner =>
      assert "proof.lean" in p.codeFiles && p.command[1] == CodePath("proof.lean");
    case SymbolicRunner =>
      assert "symbolic.py" in p.codeFiles && p.command[1] == CodePath("symbolic.py");
  }

  /** A relative name with no two dots in a row has no `..` segment. */
  lemma NoDoubleDotSafe(k: string)
    requires |k| > 0 && k[0] != '/'
    requires forall i | 0 <= i < |k| - 1 :: k[i] != '.' || k[i + 1] != '.'
    ensures !Container.UnsafePath(k)
  {
    Container.DotDotSegment(k);
  }

  /** Every name a runner writes under `/code/` passes the path filter. */
  lemma CodeFileNamesSafe(r: Runner, job: VerificationJob, k: string)
    requires Prepare(r, job).Ok? && k in Prepare(r, job).value.codeFiles
    ensures !Container.UnsafePath(k)
  {
    assert k in CodeFileNames;
    CodeFileNamesAllSafe(k);
  }

  /** Every name any runner gives a code file. */
  const CodeFileNames: set<string> := {"notebook.ipynb", "run.py", "input.Rmd", "script.R",
                                       "script.jl", "proof.lean", "symbolic.py"}

  /** None of those names has a `..` segment or a leading slash. */
  lemma CodeFileNamesAllSafe(k: string)
    requires k in CodeFileNames
    ensures !Container.UnsafePath(k)
  {
    if k == "notebook.ipynb" { NoDoubleDotSafe(k); }
    else if k == "run.py" { NoDoubleDotSafe(k); }
    else if k == "input.Rmd" { NoDoubleDotSafe(k); }
    else if k == "script.R" { NoDoubleDotSafe(k); }
    else if k == "script.jl" { NoDoubleDotSafe(k); }
    else if k == "proof.lean" { NoDoubleDotSafe(k); }
    else { NoDoubleDotSafe(k); }
  }

  /** The level a runner reports for a clean exit: a Lean proof that
      type-checks is formally proven, every other clean run executed. */
  function ClaimedLevel(r: Runner): VerificationLevel
  {
    if r == LeanRunner then L6FormallyProven else L2ExecutionVerified
  }

  datatype RunnerOutput = RunnerOutput(
    outputs: seq<(string, seq<byte>)>,
    logs: string,
    errors: string,
    level: VerificationLevel,
    success: bool)

  /** `runner.parse_output`: exit code 0 is success at the runner's claimed
      level, anything else failure at L0; the streams and files pass
      through unchanged. */
  function ParseOutput(r: Runner, exitCode: int, stdout: string, stderr: string,
                       files: seq<(string, seq<byte>)>): (o: RunnerOutput)
    ensures o.success <==> exitCode == 0
    ensures o.level == (if exitCode == 0 then ClaimedLevel(r) else L0Unverified)
    ensures o.outputs == files && o.logs == stdout && o.errors == stderr
  {
    if exitCode == 0 then RunnerOutput(files, stdout, stderr, ClaimedLevel(r), true)
    else RunnerOutput(files, stdout, stderr, L0Unverified, false)
  }

  /** A runner reports only L0, L2 or L6, and L6 only for a clean Lean run. */
  lemma ParseOutputLevels(r: Runner, exitCode: int, stdout: string, stderr: string,
                          files: seq<(string, seq<byte>)>)
    ensures var o := ParseOutput(r, exitCode, stdout, stderr, files);
      (o.level == L0Unverified || o.level == L2ExecutionVerified || o.level == L6FormallyProven)
      && (o.level == L6FormallyProven <==> r == LeanRunner && exitCode == 0)
      && (o.level == L0Unverified <==> !o.success)
  {
  }
}
