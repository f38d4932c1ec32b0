/** The records a finished job leaves behind: one comparison per expected
    artefact, and the verification result that is signed and stored. */
module Results {
  import opened Wrappers
  import opened Enums
  import opened Ids
  import opened Comparison
  import opened Ed25519

  /** One expected artefact compared with what the run produced. */
  datatype OutputComparison = OutputComparison(
    name: string,
    matched: bool,
    usedMethod: ComparisonMethod,
    score: real,
    details: Details)

  /** `VerificationResult`. The execution time is kept in whole
      milliseconds (the sandbox rounds it to three decimals), and
      `created_at` as its ISO 8601 text, read from the clock by the caller. */
  datatype VerificationResult = VerificationResult(
    id: Uuid,
    jobId: Uuid,
    claimId: Uuid,
    level: VerificationLevel,
    passed: bool,
    codeHash: string,
    signature: SignatureText,
    executionMillis: nat,
    outputsMatched: Option<seq<OutputComparison>>,
    stdout: Option<string>,
    stderr: Option<string>,
    errorMessage: Option<string>,
    runnerImage: string,
    createdAt: string)
}
