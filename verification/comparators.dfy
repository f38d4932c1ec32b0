/** The comparator table: each comparison method selects one comparator,
    which the worker runs with its own defaults (no keyword the worker
    passes is read by any comparator). */
module Comparators {
  import opened Wrappers
  import opened Enums
  import opened Comparison
  import opened Utf8
  import ExactComparator
  import NumericalComparator
  import StatisticalComparator
  import ImageComparator

  datatype Comparator = ExactCmp | NumericalCmp | StatisticalCmp | ImageCmp

  /** `_COMPARATOR_MAP` as a function: it is defined on every method. */
  function GetComparator(m: ComparisonMethod): (c: Comparator)
    ensures m == Exact <==> c == ExactCmp
    ensures m == NumericalTolerance <==> c == NumericalCmp
    ensures m == Statistical <==> c == StatisticalCmp
    ensures m == PerceptualHash <==> c == ImageCmp
  {
    match m
    case Exact => ExactCmp
    case NumericalTolerance => NumericalCmp
    case Statistical => StatisticalCmp
    case PerceptualHash => ImageCmp
  }

  /** `get_comparator` given the method's wire value, as a `StrEnum` member
      compares: a value outside the table raises ValueError. */
  function GetComparatorByValue(s: string): (r: Result<Comparator>)
    ensures r.Ok? <==> MethodOf(s).Some?
    ensures r.Ok? ==> r.value == GetComparator(MethodOf(s).value)
  {
    match MethodOf(s)
    case None => Err(ValueError("Unknown comparison method"))
    case Some(m) => Ok(GetComparator(m))
  }

  /** The comparator a method selects reports that method. */
  function MethodOfComparator(c: Comparator): ComparisonMethod
  {
    match c
    case ExactCmp => Exact
    case NumericalCmp => NumericalTolerance
    case StatisticalCmp => Statistical
    case ImageCmp => PerceptualHash
  }

  /** `comparator.compare(expected, actual, tolerance=...)`: the keyword is
      ignored, so every comparator runs with its defaults. The square root
      used by the statistical comparator is a parameter. */
  function RunComparator(c: Comparator, expected: seq<byte>, actual: seq<byte>,
                         sqrt: real -> real): (r: ComparisonResult)
    ensures r.usedMethod == MethodOfComparator(c)
    ensures 0.0 <= r.score <= 1.0
  {
    match c
    case ExactCmp => ExactComparator.Compare(expected, actual)
    case NumericalCmp =>
      NumericalComparator.Compare(expected, actual,
                                  NumericalComparator.DefaultRtol, NumericalComparator.DefaultAtol)
    case StatisticalCmp =>
      StatisticalComparator.Compare(expected, actual,
                                    StatisticalComparator.DefaultSignificance, sqrt)
    case ImageCmp => ImageComparator.Compare(expected, actual, ImageComparator.DefaultThreshold)
  }

  /** Dispatch is faithful: the result reports the method that was asked
      for, and every method's wire value finds its comparator again. */
  lemma DispatchReportsMethod(m: ComparisonMethod, expected: seq<byte>, actual: seq<byte>,
                              sqrt: real -> real)
    ensures RunComparator(GetComparator(m), expected, actual, sqrt).usedMethod == m
    ensures GetComparatorByValue(MethodValue(m)) == Ok(GetComparator(m))
  {
    MethodOfValue(m);
  }

  /** Every comparator finds a payload equal to itself. */
  lemma RunComparatorReflexive(c: Comparator, data: seq<byte>, sqrt: real -> real)
    ensures RunComparator(c, data, data, sqrt).matched
  {
    match c
    case ExactCmp => ExactComparator.CompareReflexive(data);
    case NumericalCmp =>
      NumericalComparator.CompareValuesReflexive(
        NumericalComparator.Numbers(data),
        NumericalComparator.DefaultRtol, NumericalComparator.DefaultAtol);
    case StatisticalCmp =>
      StatisticalComparator.CompareReflexive(data, StatisticalComparator.DefaultSignificance, sqrt);
    case ImageCmp =>
  }
}
