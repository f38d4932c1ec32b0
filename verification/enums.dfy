/** The four string enumerations of the service and their wire values. */
module Enums {
  import opened Wrappers

  /** The seven-level verification scale. */
  datatype VerificationLevel =
    | L0Unverified
    | L1SyntaxVerified
    | L2ExecutionVerified
    | L3OutputVerifiedDeterministic
    | L4OutputVerifiedStatistical
    | L5IndependentlyReplicated
    | L6FormallyProven

  function LevelValue(l: VerificationLevel): string
  {
    match l
    case L0Unverified => "L0_UNVERIFIED"
    case L1SyntaxVerified => "L1_SYNTAX_VERIFIED"
    case L2ExecutionVerified => "L2_EXECUTION_VERIFIED"
    case L3OutputVerifiedDeterministic => "L3_OUTPUT_VERIFIED_DETERMINISTIC"
    case L4OutputVerifiedStatistical => "L4_OUTPUT_VERIFIED_STATISTICAL"
    case L5IndependentlyReplicated => "L5_INDEPENDENTLY_REPLICATED"
    case L6FormallyProven => "L6_FORMALLY_PROVEN"
  }

  /** Distinct levels have distinct wire values, so the value identifies the level. */
  lemma LevelValueInjective(a: VerificationLevel, b: VerificationLevel)
    requires LevelValue(a) == LevelValue(b)
    ensures a == b
  {
    var sa, sb := LevelValue(a), LevelValue(b);
    assert |sa| == |sb| && sa[1] == sb[1];
  }

  datatype RunnerType =
    | PythonScript
    | PythonNotebook
    | RScript
    | RMarkdown
    | Julia
    | Lean4
    | Sympy
    | Sage

  function RunnerTypeValue(t: RunnerType): string
  {
    match t
    case PythonScript => "PYTHON_SCRIPT"
    case PythonNotebook => "PYTHON_NOTEBOOK"
    case RScript => "R_SCRIPT"
    case RMarkdown => "R_MARKDOWN"
    case Julia => "JULIA"
    case Lean4 => "LEAN4"
    case Sympy => "SYMPY"
    case Sage => "SAGE"
  }

  /** The enum member whose value is `s`, if any (a `StrEnum` member is equal
      to, and hashes like, its value). */
  function RunnerTypeOf(s: string): (r: Option<RunnerType>)
    ensures r.Some? ==> RunnerTypeValue(r.value) == s
  {
    if s == "PYTHON_SCRIPT" then Some(PythonScript)
    else if s == "PYTHON_NOTEBOOK" then Some(PythonNotebook)
    else if s == "R_SCRIPT" then Some(RScript)
    else if s == "R_MARKDOWN" then Some(RMarkdown)
    else if s == "JULIA" then Some(Julia)
    else if s == "LEAN4" then Some(Lean4)
    else if s == "SYMPY" then Some(Sympy)
    else if s == "SAGE" then Some(Sage)
    else None
  }

  /** Every runner type is found again from its value. */
  lemma RunnerTypeOfValue(t: RunnerType)
    ensures RunnerTypeOf(RunnerTypeValue(t)) == Some(t)
  {
  }

  datatype JobStatus = Pending | Queued | Running | Completed | Failed | TimedOut | Cancelled

  datatype ComparisonMethod = Exact | NumericalTolerance | Statistical | PerceptualHash

  function MethodValue(m: ComparisonMethod): string
  {
    match m
    case Exact => "EXACT"
    case NumericalTolerance => "NUMERICAL_TOLERANCE"
    case Statistical => "STATISTICAL"
    case PerceptualHash => "PERCEPTUAL_HASH"
  }

  function MethodOf(s: string): (r: Option<ComparisonMethod>)
    ensures r.Some? ==> MethodValue(r.value) == s
  {
    if s == "EXACT" then Some(Exact)
    else if s == "NUMERICAL_TOLERANCE" then Some(NumericalTolerance)
    else if s == "STATISTICAL" then Some(Statistical)
    else if s == "PERCEPTUAL_HASH" then Some(PerceptualHash)
    else None
  }

  lemma MethodOfValue(m: ComparisonMethod)
    ensures MethodOf(MethodValue(m)) == Some(m)
  {
  }
}
