# phiacta-verify, modelled in Dafny

phiacta-verify is a worker that takes verification jobs for scientific
claims off a queue. It runs each claim's code in a locked-down Docker
container with a language runner (Python, R, Julia, Lean 4 or SymPy/Sage).
It then compares the files the run produced against the expected outputs,
using one of four comparators, and decides a verification level and a
pass/fail verdict. Finally it signs the critical fields of the result with
Ed25519 and stores the result.

This project models that decision logic and proves properties of it.

- `wrappers`, `utf8`, `decimal`, `floats`, `sorting`: the supporting
  pieces.
  - `Option`/`Result`.
  - UTF-8 decoding, both strict and with `errors="replace"`, and encoding.
  - Decimal digits.
  - Python floats as `Finite(real) | PosInf | NegInf | NaN`.
  - `sorted()` on reals.
- `enums`, `ids`, `job`, `results`, `comparison`: the records.
  - The four string enumerations.
  - UUID text.
  - Resource limits, expected outputs and jobs, with their validation.
  - The result records.
- `exact`, `numberscan`, `numerical`, `statistical`, `image`,
  `comparators`: the four comparators.
  - The liberal number scanner the numerical and statistical comparators
    share.
  - The dispatch table.
- `runners`: the runner table, `prepare` and `parse_output` of the five
  runners.
- `container`, `security`, `sandbox`: the pure parts of the container
  sandbox.
  - The image allowlist.
  - Output truncation and sanitising.
  - The path-traversal filter.
  - The environment blocklist.
  - The 32 MB archive cap.
  - Tar member filtering and `output/` stripping.
  - The security policy and its host configuration.
  - `run` as a function of the daemon's answers, returning the trace of
    container operations.
- `json`, `ed25519`, `signing`: the signed payload.
  - Compact, key-sorted `json.dumps` of the seven signed fields, with
    `ensure_ascii`.
  - An ideal signature scheme.
  - `sign` and `verify`.
- `worker`: `process_job` and the per-message handling of `run_worker`.
  - Comparison assembly.
  - The level cascade.
  - Result assembly and signing.
  - The queue operations made for one message.

The model follows the code as written wherever the code and its design
notes disagree:

- **A failed run with a non-zero exit code is given L1.** The design
  reserves L1 for "code parses". Given the runners' own `parse_output`,
  the branch giving L0 to a failed run with exit code 0 is unreachable:
  runner success is exactly exit code 0.
- **An all-matched run gets the runner's claimed level (L2, or L6 for
  Lean).** It never gets L3 or L4; no path assigns L3, L4 or L5.
- **Expected-output tolerances never reach a comparator.** The worker
  passes `tolerance=`, a keyword no comparator reads, so every comparator
  runs with its defaults: rtol 1e-10 and atol 1e-12, significance 0.05,
  threshold 0.95.
- **The runner's `env_vars` are not passed to the sandbox.** The created
  container's environment is always empty.
- **Missing expected content is compared as empty bytes.**
- **The sandbox test suite expects a non-`noexec` `/tmp` and an `/output`
  tmpfs.** The code mounts only `/tmp`, with `size=<n>m,noexec,nosuid`,
  and the model follows the code.
- **The symbolic runner selects the Python image.** The separate symbolic
  image on the allowlist is never used.

## Model

| member | source | states |
|---|---|---|
| Worker.Lookup | src/phiacta_verify/worker.py:128 | an output is found exactly when the run produced a file of that name, and the value is that file's content |
| Worker.CompareOne | src/phiacta_verify/worker.py:127-158 | each comparison keeps the expected name and method with a score in [0, 1]; a missing output is an unmatched "output not found" with score 0; otherwise the verdict is the selected comparator's on the expected content (empty when absent) and the actual bytes |
| Worker.BuildComparisons | src/phiacta_verify/worker.py:125-158 | comparisons exist exactly when expected outputs are given, non-empty, and the runner succeeded; then there is one per expected output, in order |
| Worker.MatchedOutputsExist | src/phiacta_verify/worker.py:130-140 | a matched comparison always names an artefact the run produced |
| Worker.ExactOutputsAllMatch | src/phiacta_verify/worker.py:142-158 | a successful run that produced every expected artefact byte for byte has every comparison matched, whatever the methods |
| Worker.ResolveLevel | src/phiacta_verify/worker.py:161-182 | the cascade: timeout gives L0 and fail; runner failure gives L1 for a non-zero exit, else L0, and fail; all matched gives the runner's level and pass; a mismatch gives L2 and fail; no comparisons gives the runner's level and pass |
| Worker.PassedIffClean | src/phiacta_verify/worker.py:160-182 | a job passes exactly when it did not time out, the runner succeeded and every comparison matched |
| Worker.ResolvedLevels | src/phiacta_verify/worker.py:161-182 | with the runners' exit-code reading, the level is always L0, L1, L2 or L6; L0 exactly after a timeout, L1 exactly after a non-zero exit without timeout; a passing job carries the runner's claimed level |
| Worker.Clip | src/phiacta_verify/worker.py:193-194 | a stored stream is absent exactly when the captured stream is empty; otherwise it is the prefix of the stream of length `min(len, 1000)`: the whole stream when it fits, else exactly its first 1000 characters |
| Worker.ClipIdempotent | src/phiacta_verify/worker.py:193-194 | a stored stream, stored again, is unchanged |
| Worker.AssembleResult | src/phiacta_verify/worker.py:185-197 | the result carries the job's ids and code hash, the level and verdict, the elapsed time, the comparisons (absent exactly when there are none), an error message exactly when the job failed (the runner's stderr), the clipped streams and the runner's image |
| Worker.Launch | src/phiacta_verify/worker.py:96-114 | a runner error or an invalid policy raises with no container operation; otherwise the container is created first, with an empty environment, and removed last |
| Worker.Finish | src/phiacta_verify/worker.py:117-199 | the signature is the signer's over the finished result; the job passes exactly when it did not time out and exited 0 with all comparisons matched; the level is L0 exactly after a timeout and always one of L0, L1, L2, L6 |
| Worker.ProcessJob | src/phiacta_verify/worker.py:96-199 | a runner or policy error raises before any container exists; a created container is the first operation, with an empty environment, and removal is the last; the stored result names the runner's image and its signature verifies |
| Worker.ValidJobReachesSandbox | src/phiacta_verify/worker.py:96-114 | a valid job with a well-formed environment spec always gets a container when the daemon accepts the create: the runner's image is allowed, its file names are safe, and its limits make a valid policy |
| Worker.Settle | src/phiacta_verify/worker.py:60-67 | for one message: RUNNING first, the acknowledgement last and only there, FAILED exactly when processing raised, and a stored result only when it returned that result |
| Worker.RemoveFailureFailsJob | src/phiacta_verify/worker.py:60-67 | once a container is created, a removal failing other than with an API error marks the job FAILED, however the run went |
| Worker.HandleMessage | src/phiacta_verify/worker.py:199-200 | every result stored for a message verifies under the worker's key |
| Worker.MessageSettlesJob | src/phiacta_verify/worker.py:60-67 | every message is acknowledged exactly once, and its job ends COMPLETED after a stored result or FAILED after a raise, never RUNNING |
| Signing.PayloadFields | src/phiacta_verify/signing/ed25519.py:45-53 | the payload has exactly the seven keys claim_id, code_hash, created_at, execution_time_seconds, job_id, passed, verification_level, in strictly increasing key order |
| Signing.ValuesDetermineResult | src/phiacta_verify/signing/ed25519.py:45-53 | the seven JSON values are equal exactly when the results agree on job id, claim id, code hash, level, verdict, elapsed time and creation time |
| Signing.CanonicalPayload | src/phiacta_verify/signing/ed25519.py:43-54 | the payload bytes are valid UTF-8 and decode to the compact JSON object of the seven fields |
| Signing.FieldsDetermineResult | src/phiacta_verify/signing/ed25519.py:45-53 | two results have the same seven JSON values exactly when they agree on job id, claim id, code hash, level, verdict, elapsed time and creation time |
| Signing.PayloadDeterminesFields | src/phiacta_verify/signing/ed25519.py:43-54 | two results have the same payload exactly when they agree on the seven signed fields: no other field can change it, and no change to a signed field leaves it intact |
| Signing.PayloadIsAscii | src/phiacta_verify/signing/ed25519.py:54 | every payload byte is printable ASCII, one byte per character of the JSON text |
| Signing.VerifyResult | src/phiacta_verify/signing/ed25519.py:66-74 | signature text that is not base64 raises (the decode is outside the `try`); decodable text gives a verdict |
| Signing.SignThenVerify | src/phiacta_verify/signing/ed25519.py:60-74 | a signature made for one result verifies against another exactly when the two agree on the signed fields |
| Signing.FlippedVerdictFails | src/phiacta_verify/signing/ed25519.py:60-74 | a signed result verifies, and the same signature fails once `passed` is flipped |
| Signing.OtherKeyFails | src/phiacta_verify/signing/ed25519.py:66-74 | a signature made under another key is rejected |
| Ed25519.VerifyExactlySigned | src/phiacta_verify/signing/ed25519.py:71 | the ideal scheme: a signature verifies exactly when it was made by that key over that message |
| Json.EscapedDetermined | src/phiacta_verify/signing/ed25519.py:54 | an escaped string followed by its closing quote reads back unambiguously: the string and what follows are determined |
| Json.DecodeEscape | src/phiacta_verify/signing/ed25519.py:54 | every `ensure_ascii` escape, two-character, `\uXXXX` or surrogate pair, reads back as the character it escapes |
| Json.MillisReprInjective | src/phiacta_verify/signing/ed25519.py:51 | distinct elapsed times, in whole milliseconds, have distinct `repr` texts |
| Json.ObjectTextInjective | src/phiacta_verify/signing/ed25519.py:54 | the compact JSON text of an object determines its members, keys and values alike |
| Ids.UuidStringInjective | src/phiacta_verify/signing/ed25519.py:46-47 | distinct UUIDs have distinct 36-character canonical texts |
| Enums.LevelValueInjective | src/phiacta_verify/models/enums.py:19-25 | distinct verification levels have distinct wire values |
| Enums.RunnerTypeOfValue | src/phiacta_verify/models/enums.py:31-38 | every runner type is found again from its wire value |
| Enums.MethodOfValue | src/phiacta_verify/models/enums.py:56-59 | every comparison method is found again from its wire value |
| ExactComparator.Compare | src/phiacta_verify/comparators/exact.py:24-52 | both byte lengths are recorded; when both payloads are valid UTF-8 the match is equality of the normalised texts (text mode), otherwise equality of the bytes (binary mode); the score is 1 exactly when matched, else 0 |
| ExactComparator.RStrip | src/phiacta_verify/comparators/exact.py:58 | the stripped line is the longest prefix not ending in whitespace, and what it removes is all whitespace |
| ExactComparator.DropTrailingEmpty | src/phiacta_verify/comparators/exact.py:60-61 | the popped list is a prefix whose last line is non-empty, and everything popped was empty |
| ExactComparator.SplitJoin | src/phiacta_verify/comparators/exact.py:57-62 | splitting joined lines without boundaries gives the lines back, except a final empty line |
| ExactComparator.StrippedLinesShape | src/phiacta_verify/comparators/exact.py:55-61 | no normalised line contains a boundary or ends in whitespace, and the last is not empty |
| ExactComparator.NormalizeIdempotent | src/phiacta_verify/comparators/exact.py:55-62 | normalised text is its own normal form |
| ExactComparator.NormalizeIgnoresTrailingSpace | src/phiacta_verify/comparators/exact.py:55-62 | trailing whitespace, newlines included, never changes the normal form |
| ExactComparator.NormalizeIgnoresLinePadding | src/phiacta_verify/comparators/exact.py:55-62 | whitespace at the end of any line never changes the normal form |
| ExactComparator.CompareReflexive | src/phiacta_verify/comparators/exact.py:24-52 | every payload matches itself with score 1, in either mode |
| ExactComparator.CompareIgnoresTrailingWhitespace | src/phiacta_verify/comparators/exact.py:33-41 | two texts differing only in trailing whitespace are compared in text mode and match |
| ExactComparator.CompareIgnoresLinePadding | src/phiacta_verify/comparators/exact.py:33-41 | lines padded with trailing whitespace match the unpadded lines |
| ImageComparator.ByteSimilarity | src/phiacta_verify/comparators/image.py:83-111 | the chunked loop yields the longer length as total, and as matching count the number of agreeing positions in the overlap |
| ImageComparator.AgreeingFull | src/phiacta_verify/comparators/image.py:103-109 | the agreeing count over a range is the full range exactly when every position agrees |
| ImageComparator.Similarity | src/phiacta_verify/comparators/image.py:66-67 | the similarity lies in [0, 1] and is 1 exactly when the payloads are equal and non-empty |
| ImageComparator.Compare | src/phiacta_verify/comparators/image.py:40-80 | equal payloads match with score 1, with every byte counted as matching; otherwise the score is the similarity `bytes_matching / bytes_total` over a non-zero total, below 1, the total is the longer size, the matching count is the number of agreeing positions, and the payloads match exactly when the score reaches the threshold |
| ImageComparator.EmptyPayloadsMatch | src/phiacta_verify/comparators/image.py:54-63 | two empty payloads match with score 1 |
| ImageComparator.OneByteOffMatches | src/phiacta_verify/comparators/image.py:73 | a payload of at least 20 bytes with one byte changed still matches at the default threshold 0.95 |
| NumberScan.FortranExponent | src/phiacta_verify/comparators/numerical.py:183-187 | a token with a `d`/`D` exponent converts to the same value as its `e` form |
| NumberScan.ScannedTokensConvert | src/phiacta_verify/comparators/numerical.py:19-27 | with ASCII case folding, every token the scanner yields is a literal `float()` accepts |
| NumberScan.WidenedScanYieldsUnconvertible | src/phiacta_verify/comparators/numerical.py:19-27 | with the regular-expression engine's Unicode folding of `i`, the text `ınf` is scanned as one token that `float()` rejects |
| NumericalComparator.ConvertAll | src/phiacta_verify/comparators/numerical.py:168 | conversion succeeds exactly when every token converts, keeping one value per token |
| NumericalComparator.ParseNumbersTotal | src/phiacta_verify/comparators/numerical.py:167-168 | with ASCII case folding, parsing the numbers of any payload never raises |
| NumericalComparator.WidenedParseRaises | src/phiacta_verify/comparators/numerical.py:19-27 | with Unicode folding, the payload `ınf` makes parsing raise |
| NumericalComparator.FortranTokenValue | src/phiacta_verify/comparators/numerical.py:183-187 | `1.23D+02` reads as 123 |
| NumericalComparator.SpellingsAgree | src/phiacta_verify/comparators/numerical.py:183-187 | tokens that differ only in the exponent marker `d`, `D` or `e` convert alike |
| NumericalComparator.ValuesClose | src/phiacta_verify/comparators/numerical.py:195-227 | closeness holds exactly as specified: NaN only with NaN, equal values (same-signed infinities included), distinct finite values within `atol + rtol·|e|`; NaN against a number, or an infinity against a different value, is a mismatch with infinite errors; both errors are non-negative or infinite together |
| NumericalComparator.ErrMax | src/phiacta_verify/comparators/numerical.py:88-89 | the maximum of two error magnitudes is infinite exactly when one of them is, else the larger one |
| NumericalComparator.ScanPairs | src/phiacta_verify/comparators/numerical.py:84-97 | there are no mismatch entries over the pairs exactly when every pair is close; every entry is a non-close pair, in increasing index order; both maxima are error magnitudes, infinite together |
| NumericalComparator.ScanPairsComplete | src/phiacta_verify/comparators/numerical.py:84-97 | every pair that is not close has a mismatch entry |
| NumericalComparator.ScanPairsMaxRel | src/phiacta_verify/comparators/numerical.py:77-89 | the running maximum of the relative errors from 0 is infinite exactly when some pair's error is, otherwise at least each pair's error and either 0 or one of them |
| NumericalComparator.ScanPairsMaxAbs | src/phiacta_verify/comparators/numerical.py:78-88 | the same for the absolute errors |
| NumericalComparator.Unpaired | src/phiacta_verify/comparators/numerical.py:100-119 | one entry per value beyond the shorter sequence, with infinite errors |
| NumericalComparator.CompareValues | src/phiacta_verify/comparators/numerical.py:61-141 | the values compared are the longer length; matched exactly when there are no mismatch entries, i.e. equal lengths and every pair close; a length mismatch gives infinite maxima and score 0; for equal lengths the maxima and entries are those of the pair scan; the score is 0 for an infinite maximum relative error and otherwise `clamp(1 - max relative error)`; no numbers on either side match with score 1 |
| NumericalComparator.Compare | src/phiacta_verify/comparators/numerical.py:52-141 | the scanned numbers of both payloads match exactly when they are equally many and pairwise close; the score is 0 for an infinite maximum relative error and otherwise `clamp(1 - max relative error)`, which for equally many numbers is the maximum of the pair scan |
| NumericalComparator.CompareValuesReflexive | src/phiacta_verify/comparators/numerical.py:206-213 | every number sequence matches itself, NaN included, at any tolerances |
| NumericalComparator.CloseSymmetricAbsolute | src/phiacta_verify/comparators/numerical.py:226 | with a purely absolute tolerance, closeness is symmetric |
| NumericalComparator.CloseMonotone | src/phiacta_verify/comparators/numerical.py:226 | loosening either tolerance never turns a match into a mismatch |
| Floats.FromReal | src/phiacta_verify/comparators/numerical.py:187 | a decimal literal is finite with its exact value below the overflow threshold, and an infinity of its sign beyond it |
| Floats.Clamp01 | src/phiacta_verify/comparators/numerical.py:129 | the clamp lies in [0, 1] and is the identity on it |
| StatisticalComparator.FiniteOf | src/phiacta_verify/comparators/statistical.py:227-237 | every kept value is a finite number of the input and every finite number is kept; NaN and infinities are dropped, and nothing is dropped when all are finite |
| StatisticalComparator.FiniteOfAppend | src/phiacta_verify/comparators/statistical.py:229-237 | filtering distributes over concatenation, so the kept values keep the order of the input |
| StatisticalComparator.FiniteOfCounts | src/phiacta_verify/comparators/statistical.py:229-237 | each finite value is kept exactly as many times as it occurs |
| StatisticalComparator.MinOf | src/phiacta_verify/comparators/statistical.py:137 | the minimum is one of the values and at most each of them |
| StatisticalComparator.MaxOf | src/phiacta_verify/comparators/statistical.py:138 | the maximum is one of the values and at least each of them |
| StatisticalComparator.Mean | src/phiacta_verify/comparators/statistical.py:136 | the mean lies between the minimum and the maximum |
| StatisticalComparator.Variance | src/phiacta_verify/comparators/statistical.py:141 | the population variance is non-negative |
| StatisticalComparator.Median | src/phiacta_verify/comparators/statistical.py:144-148 | the median lies between the extremes and is one of the values for an odd count |
| StatisticalComparator.Summary | src/phiacta_verify/comparators/statistical.py:131-156 | min and max are values bounding all others, mean and median lie between them, and std is the square root of the variance |
| StatisticalComparator.NormDev | src/phiacta_verify/comparators/statistical.py:159-170 | the deviation is non-negative, zero exactly for equal statistics, otherwise the difference divided by `max(|e|, |a|, 1)`, and at most 2 |
| StatisticalComparator.NormDevSymmetric | src/phiacta_verify/comparators/statistical.py:159-170 | the deviation does not depend on which side is expected |
| StatisticalComparator.MaxDeviation | src/phiacta_verify/comparators/statistical.py:91-101 | the running maximum from 0 is at least each of the five deviations and equals 0 or one of them |
| StatisticalComparator.Ks | src/phiacta_verify/comparators/statistical.py:173-204 | the statistic lies in [0, 1] |
| StatisticalComparator.KsStatistic | src/phiacta_verify/comparators/statistical.py:173-204 | the imperative merge walk computes the statistic, which lies in [0, 1] |
| StatisticalComparator.KsOfPermutation | src/phiacta_verify/comparators/statistical.py:173-204 | samples with the same values, in any order, have statistic 0 |
| StatisticalComparator.Compare | src/phiacta_verify/comparators/statistical.py:54-123 | no finite numbers on either side match with score 1; exactly one empty side fails with score 0; otherwise the details carry both summaries, the five deviations and their maximum, the payloads match exactly when all five deviations are within the significance level, and the score is `clamp(1 - max deviation)` |
| StatisticalComparator.CompareOfPermutation | src/phiacta_verify/comparators/statistical.py:54-123 | the comparison depends only on the multiset of finite values on each side |
| StatisticalComparator.CompareReflexive | src/phiacta_verify/comparators/statistical.py:54-123 | every payload matches itself with score 1 at any non-negative significance |
| StatisticalComparator.VerdictIgnoresKs | src/phiacta_verify/comparators/statistical.py:106-110 | verdict and score depend on the summaries alone, never on the KS statistic |
| Sorting.Sort | src/phiacta_verify/comparators/statistical.py:144 | the result is sorted and a permutation of the input |
| Sorting.SortedUnique | src/phiacta_verify/comparators/statistical.py:144 | a sorted sequence is determined by its multiset |
| Sorting.SortPermutationInvariant | src/phiacta_verify/comparators/statistical.py:179-180 | sorting forgets the order of its input |
| Comparators.GetComparator | src/phiacta_verify/comparators/__init__.py:35-40 | EXACT, NUMERICAL_TOLERANCE, STATISTICAL and PERCEPTUAL_HASH select the exact, numerical, statistical and image comparators respectively, and nothing else selects them |
| Comparators.GetComparatorByValue | src/phiacta_verify/comparators/__init__.py:43-56 | a wire value finds a comparator exactly when it names a method; otherwise ValueError |
| Comparators.RunComparator | src/phiacta_verify/worker.py:143-148 | the comparator runs with its defaults and reports its own method, with a score in [0, 1] |
| Comparators.DispatchReportsMethod | src/phiacta_verify/comparators/__init__.py:35-40 | the comparator a method selects reports that method, and each method's wire value finds it |
| Comparators.RunComparatorReflexive | src/phiacta_verify/comparators/__init__.py:35-40 | every comparator finds a payload equal to itself |
| Runners.GetRunner | src/phiacta_verify/runners/__init__.py:37-46 | the two Python types select the Python runner, the two R types R, JULIA Julia, LEAN4 Lean, SYMPY and SAGE the symbolic runner, each in both directions |
| Runners.GetRunnerByValue | src/phiacta_verify/runners/__init__.py:68-74 | a wire value finds a runner exactly when it names a runner type; otherwise ValueError |
| Runners.GetRunnerByValueOfType | src/phiacta_verify/runners/__init__.py:37-46 | every runner type's wire value finds its runner |
| Runners.DefaultImage | src/phiacta_verify/runners/symbolic_runner.py:24 | every runner's image is on the allowlist, and the symbolic runner shares the Python image |
| Runners.DefaultTimeout | src/phiacta_verify/runners/lean_runner.py:24 | timeouts are positive: 300 s exactly for Lean, 60 s exactly for the symbolic runner |
| Runners.PairsToMapLastWins | src/phiacta_verify/runners/python_runner.py:91-93 | updating from a sequence of pairs keeps, for each key, the value of its last pair |
| Runners.EnvVars | src/phiacta_verify/runners/python_runner.py:91-93 | the environment is empty without an `env` entry; a mapping is taken as it is and a list of pairs is merged in order; the empty string gives the empty environment and any other string raises ValueError; a value that cannot be iterated raises TypeError |
| Runners.ItemPairs | src/phiacta_verify/runners/python_runner.py:93 | a list is accepted exactly when every element is a pair, and then gives those pairs in order |
| Runners.ItemPairsError | src/phiacta_verify/runners/python_runner.py:93 | the first element that is not a pair decides the error: TypeError when it cannot be iterated, ValueError when it has the wrong length |
| Runners.Prepare | src/phiacta_verify/runners/python_runner.py:65-101 | preparation fails only on a bad `env`; otherwise it uses the runner's image, no data files and the job's environment, and the code files are exactly the job's code under the runner's file name plus, for a notebook, the wrapper as `run.py` |
| Runners.PrepareCommand | src/phiacta_verify/runners/r_runner.py:42-54 | the command starts the runner's interpreter (`python`, `Rscript`, `julia`, `lean`, and `python` for symbolic jobs); an R Markdown job runs `Rscript -e` with the render call and has its document as `input.Rmd`; every other command has two words |
| Runners.PrepareRunsCodeFile | src/phiacta_verify/runners/python_runner.py:81-89 | except for R Markdown under the R runner, the command runs a file placed under `/code/`, which holds the job's own code unless it is the notebook wrapper |
| Runners.CodeFileNamesSafe | src/phiacta_verify/sandbox/container.py:204-208 | every code file name a runner writes passes the sandbox's path-traversal check |
| Runners.ParseOutput | src/phiacta_verify/runners/python_runner.py:103-130 | success exactly on exit code 0, at the runner's claimed level, else L0; files and streams pass through unchanged |
| Runners.ParseOutputLevels | src/phiacta_verify/runners/lean_runner.py:57-85 | a runner reports L0, L2 or L6 only; L6 exactly for a clean Lean run; L0 exactly on failure |
| Container.TruncateBytes | src/phiacta_verify/sandbox/container.py:68-76 | data within the limit is unchanged; longer data becomes its first `limit` bytes followed by the marker |
| Container.Sanitize | src/phiacta_verify/sandbox/container.py:57-65 | sanitised text contains no control character other than tab, newline and carriage return |
| Container.SanitizeKeepsLayout | src/phiacta_verify/sandbox/container.py:57-65 | sanitising only deletes characters, keeping the order of the rest, and keeps every newline, carriage return and tab |
| Container.SanitizeIdempotent | src/phiacta_verify/sandbox/container.py:57-65 | sanitising sanitised text changes nothing |
| Container.StripEscapesKeeps | src/phiacta_verify/sandbox/container.py:37 | removing escape sequences keeps every occurrence of each character that cannot belong to one |
| Container.DotDotSegment | src/phiacta_verify/sandbox/container.py:112 | a path has a `..` segment after splitting on `/` exactly when two dots sit between slashes or the ends |
| Container.FilterEnv | src/phiacta_verify/sandbox/container.py:232-241 | an entry survives exactly when its upper-cased key is not blocked, keeping key and value |
| Container.FilterEnvBlocks | src/phiacta_verify/sandbox/container.py:45-51 | no blocked name passes in upper or lower case, and filtering is idempotent |
| Container.KeptChunks | src/phiacta_verify/sandbox/container.py:320-331 | the kept chunks total at most 32 MB, and collection stops only at the chunk that would overflow |
| Container.CollectArchive | src/phiacta_verify/sandbox/container.py:320-332 | the loop's archive is the concatenation of the kept chunks, at most 32 MB |
| Container.Put | src/phiacta_verify/sandbox/container.py:119 | storing a file keeps names distinct, adds the name, and holds the new content under it |
| Container.ExtractMembers | src/phiacta_verify/sandbox/container.py:98-120 | extracted names are distinct and are exactly the regular-file members with safe names |
| Container.ExtractLastWins | src/phiacta_verify/sandbox/container.py:108-119 | a kept name holds the content of the last regular, safe member of that name |
| Container.PutKeeps | src/phiacta_verify/sandbox/container.py:119 | storing under one name keeps the content under every other name |
| Container.ExtractedNamesSafe | src/phiacta_verify/sandbox/container.py:112 | no extracted name is absolute or has a `..` segment |
| Container.ExtractMakeTar | src/phiacta_verify/sandbox/container.py:79-95 | reading back what was archived gives the same files, for distinct safe names |
| Container.StripPrefix | src/phiacta_verify/sandbox/container.py:340-341 | one leading `output/` is removed, and nothing else changes |
| Container.CleanNames | src/phiacta_verify/sandbox/container.py:337-344 | cleaned names are distinct, lose one leading `output/`, and those left empty are dropped |
| Container.StripPrefixOnce | src/phiacta_verify/sandbox/container.py:340-341 | only one prefix goes: `output/output/x` becomes `output/x` |
| Sandbox.CaptureText | src/phiacta_verify/sandbox/container.py:305-310 | captured text has no control characters |
| Sandbox.CaptureTextBounded | src/phiacta_verify/sandbox/container.py:305-310 | however much a container prints, the captured text is at most 64 KB plus the marker long |
| Sandbox.CollectOutputs | src/phiacta_verify/sandbox/container.py:313-353 | a missing `/output/` or a daemon failure gives no files; collected names are distinct and non-empty |
| Sandbox.WaitResult | src/phiacta_verify/sandbox/container.py:269-293 | a finished wait gives its status or -1; a timeout or lost connection gives -1 and timed out; any other error propagates |
| Sandbox.AfterWait | src/phiacta_verify/sandbox/container.py:295-362 | the result carries the wait's exit code, timeout flag and elapsed time, and exists exactly when both logs and the outputs were read |
| Sandbox.AfterCreate | src/phiacta_verify/sandbox/container.py:265-362 | a timed-out wait kills the container and reports -1; a kill failing other than with an API error propagates; an exited wait reports its status; an unexpected wait error propagates |
| Sandbox.Run | src/phiacta_verify/sandbox/container.py:153-389 | an image off the allowlist, an unsafe code file name, or an unsafe name among non-empty data files raises ValueError before any container exists; a created container is the first operation, with the filtered environment, and removal the last; a removal failing other than with an API error replaces the result with its error, otherwise the result is that of the steps after creation |
| Sandbox.RemovedOnceAtEnd | src/phiacta_verify/sandbox/container.py:370-383 | a created container is removed exactly once, as the last operation, on every path |
| Sandbox.CreatedConfined | src/phiacta_verify/sandbox/container.py:228-256 | the container runs an allowed image with the network off, the policy's memory limit, no blocked variable, and only given variables |
| Sandbox.RunResultShape | src/phiacta_verify/sandbox/container.py:269-362 | a successful run reports the waited status, or -1 and timed out after a kill; its streams are free of control characters and its output names are distinct and non-empty |
| Security.NewPolicy | src/phiacta_verify/sandbox/security.py:27-45 | construction succeeds exactly when the network is disabled and all six limits are positive, giving the fields as given; an enabled network fails with its own message |
| Security.ToContainerConfig | src/phiacta_verify/sandbox/security.py:47-65 | the network is `none`; memory and swap limits are equal and read back as the policy's megabytes; the security options are exactly `no-new-privileges` when asked for and none otherwise; the only tmpfs is `/tmp`, `size=<n>m,noexec,nosuid` |
| Security.MegabytesRoundTrip | src/phiacta_verify/sandbox/security.py:57-58 | a size written as `<n>m` reads back as n |
| Security.PolicyFromValidLimits | src/phiacta_verify/worker.py:100-105 | valid job limits always make a valid policy that locks network, root filesystem and privileges and carries the limits |
| Job.NewResourceLimits | src/phiacta_verify/models/job.py:13-40 | limits are accepted exactly when every field is positive |
| Job.DefaultLimitsValid | src/phiacta_verify/models/job.py:16-40 | the defaults 120, 2048, 256, 120, 64 pass validation |
| Job.NewExpectedOutput | src/phiacta_verify/models/job.py:43-65 | an expected output is accepted exactly when its tolerance is absent or non-negative, and defaults to EXACT |
| Job.ExpectedBytes | src/phiacta_verify/worker.py:142 | missing expected content is compared as empty bytes |
| Job.NewJob | src/phiacta_verify/models/job.py:68-116 | a new job is PENDING with the fresh id, the given fields, each timestamp its own clock reading, and the default limits when none are given |
| Utf8.DecodeEncodeRoundTrip | src/phiacta_verify/comparators/exact.py:34-35 | decoding undoes encoding, so encoded text is valid UTF-8 |
| Utf8.StrictAgreesWithReplace | src/phiacta_verify/sandbox/container.py:309 | wherever strict decoding succeeds, decoding with replacement gives the same text |
| Utf8.DecodeReplaceShorter | src/phiacta_verify/sandbox/container.py:309-310 | decoding with replacement yields at most one character per byte |

## Left out

- Docker SDK calls, temporary directories, bind mounts and the wall
  clock. The daemon's answers to create, start, wait, kill, remove, logs
  and archive are a record given to `Sandbox.Run`; an API error from kill
  or remove, which `run` swallows, is an `Ok` answer there. The elapsed time is a number of whole
  milliseconds in that record.
- The tar byte format. Reading an archive is a function parameter
  (`untar`). `_make_tar` and `_extract_tar` are modelled at the level of
  members.
- Redis and asyncio. The queue is the list of operations made for one
  message, and each queue call is taken to succeed. The dequeue loop,
  cancellation and back-off are concurrency.
- `main.py` wiring and the HTTP API. They are transport and settings, and
  main.py passes `run_worker` a keyword it does not accept.
- Ed25519 itself, base64, PEM loading and key generation. They are
  foreign cryptography. Signatures follow an ideal scheme: a signature
  verifies exactly when made by that key over that message. Signing is a
  function, so signatures are deterministic, as section 5.1.6 of RFC 8032
  makes them.
- The JSON branch of number parsing in both numeric comparators. It is a
  library call; only the regular-expression path is modelled.
- SHA-256 in the image comparator. Hash equality is modelled as byte
  equality.
- Floating-point rounding, `math.fsum` and `math.sqrt`. Values are exact
  reals. A literal beyond the largest double becomes infinite. The square
  root is a parameter of the statistical comparator.
- Unicode digits and non-ASCII case mapping. `\d` and `str.upper()` are
  modelled on ASCII, and the scanner folds only ASCII case, as discussed
  under Findings.
- The notebook wrapper script. It is an opaque text executed inside the
  container.
- The `details` payloads of the comparators are modelled only as far as
  the contracts use them. The numerical mismatch entries record indices
  and errors, not the formatted values.
- StatisticalComparator.CompareReflexive: holds of exact reals only. In
  Python, `math.fsum` (intermediate overflow) and the float `**` of the
  variance raise OverflowError on huge values; nothing in the comparator
  catches it, so a payload such as `1e200 -1e200` compared with itself
  makes the job fail. Overflow errors are not modelled.
- StatisticalComparator.Summary: for the same reason the summary is
  always defined; the OverflowError of `_summary` is not modelled.
- Runners.EnvVars: keys and values of the environment are strings; a
  JSON number or boolean given as a value in `env` is not modelled.
- The TIMED_OUT and CANCELLED statuses. Nothing in the worker sets them.
- Json.MillisRepr: `repr` of the elapsed time is modelled in positional
  notation for whole milliseconds. Python switches to exponent notation
  from 1e16 seconds, far beyond any timeout.
- Signing.PayloadFields: `created_at.isoformat()` is taken as given text.
  The datetime formatting is not modelled.

## Findings

| source | as written | input that shows it | evidently intended | confidence | as-written member | corrected member |
|---|---|---|---|---|---|---|
| src/phiacta_verify/comparators/numerical.py:19-27 | The scanner pattern is compiled with IGNORECASE on a text pattern, so its `i` also matches the dotless `ı` (U+0131). `_to_float` converts every token without a `try`, and `float()` folds only ASCII case. | An output file containing `ınf`: the scanner yields the token `ınf`, `float()` raises ValueError, and the comparison, and with it the whole job, fails. The statistical comparator catches the same error and skips the token. | Every token the scanner yields converts, so parsing never raises. Either the scanner folds only ASCII case or unconvertible tokens are skipped. | medium; not executed | NumericalComparator.WidenedParseRaises | NumericalComparator.ParseNumbersTotal |
