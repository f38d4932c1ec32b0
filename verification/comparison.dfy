/** What every comparator returns: whether the outputs match, the method
    used, a score in [0, 1] and method-specific details. The free-form
    details dictionary of each comparator becomes one variant here. */
module Comparison {
  import opened Wrappers
  import opened Floats
  import opened Enums

  datatype ExactMode = Text | Binary

  /** A value as reported in a mismatch entry, or `"<missing>"`. */
  datatype Shown = Value(n: Number) | Missing

  /** Which side an unpaired value comes from. */
  datatype Side = InExpected | InActual

  datatype Mismatch = Mismatch(
    index: nat,
    expected: Shown,
    actual: Shown,
    absoluteError: Number,
    relativeError: Number,
    onlyIn: Option<Side>)

  /** The five summary statistics, in the order they are compared. */
  datatype Stats = Stats(mean: real, std: real, min: real, max: real, median: real)

  datatype Details =
    | ExactDetails(byteLengthExpected: nat, byteLengthActual: nat, mode: ExactMode)
    | NumericalDetails(maxRelativeError: Number, maxAbsoluteError: Number,
                       valuesCompared: nat, mismatches: seq<Mismatch>)
    | NoFiniteNumbers
    | OneSideEmpty(expectedCount: nat, actualCount: nat)
    | StatisticalDetails(countExpected: nat, countActual: nat,
                         expectedStats: Stats, actualStats: Stats,
                         deviations: Stats, maxDeviation: real, ksStatistic: real)
    | ImageDetails(sizeExpected: nat, sizeActual: nat,
                   bytesTotal: nat, bytesMatching: nat, similarity: real)
    | OutputNotFound

  datatype ComparisonResult = ComparisonResult(
    matched: bool,
    usedMethod: ComparisonMethod,
    score: real,
    details: Details)
}
