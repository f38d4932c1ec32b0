/** The statistical comparator: five summary statistics of the finite
    numbers of each payload, compared by normalised deviation against a
    significance level. A Kolmogorov-Smirnov-style statistic is reported
    alongside and plays no part in the verdict. */
module StatisticalComparator {
  import opened Floats
  import opened Utf8
  import opened Enums
  import opened Comparison
  import opened Sorting
  import NumericalComparator

  const DefaultSignificance: real := 0.05

  // ---------------------------------------------------------------------
  // Finite numbers of a payload
  // ---------------------------------------------------------------------

  /** The finite values among `ns`, in order; NaN and the infinities are
      dropped. */
  function FiniteOf(ns: seq<Number>): (r: seq<real>)
    ensures |r| <= |ns|
    ensures forall i | 0 <= i < |r| :: Finite(r[i]) in ns
    ensures forall i | 0 <= i < |ns| && ns[i].Finite? :: ns[i].r in r
    ensures (forall i | 0 <= i < |ns| :: ns[i].Finite?) ==> |r| == |ns|
  {
    if ns == [] then []
    else
      assert ns == [ns[0]] + ns[1..];
      (if ns[0].Finite? then [ns[0].r] else []) + FiniteOf(ns[1..])
  }

  /** Filtering distributes over concatenation: the kept values of a
      sequence are those of its first part followed by those of the rest,
      so order and multiplicity are preserved. */
  lemma {:induction false} FiniteOfAppend(a: seq<Number>, b: seq<Number>)
    ensures FiniteOf(a + b) == FiniteOf(a) + FiniteOf(b)
  {
    if a != [] {
      var h := if a[0].Finite? then [a[0].r] else [];
      assert (a + b)[0] == a[0] && (a + b)[1..] == a[1..] + b;
      FiniteOfAppend(a[1..], b);
      assert FiniteOf(a + b) == h + (FiniteOf(a[1..]) + FiniteOf(b));
      assert FiniteOf(a) == h + FiniteOf(a[1..]);
    } else {
      assert a + b == b;
    }
  }

  /** A single number is kept, as itself, exactly when it is finite. */
  lemma FiniteOfSingle(n: Number)
    ensures FiniteOf([n]) == if n.Finite? then [n.r] else []
  {
    assert [n][1..] == [];
  }

  /** Each finite value occurs among the kept values exactly as often as
      it occurs among the numbers. */
  lemma {:induction false} FiniteOfCounts(ns: seq<Number>, x: real)
    ensures multiset(FiniteOf(ns))[x] == multiset(ns)[Finite(x)]
  {
    if ns != [] {
      FiniteOfCounts(ns[1..], x);
      FiniteOfCountsStep(ns, x);
      CountCons(ns, Finite(x));
    }
  }

  /** The head of a sequence adds one to its own count and nothing else. */
  lemma CountCons<T>(s: seq<T>, y: T)
    requires s != []
    ensures multiset(s)[y] == (if s[0] == y then 1 else 0) + multiset(s[1..])[y]
  {
    assert s == [s[0]] + s[1..];
  }

  /** The kept values count `x` once more than those of the tail exactly
      when the head is `x` itself. */
  lemma FiniteOfCountsStep(ns: seq<Number>, x: real)
    requires ns != []
    ensures multiset(FiniteOf(ns))[x]
            == (if ns[0] == Finite(x) then 1 else 0) + multiset(FiniteOf(ns[1..]))[x]
  {
    if ns[0].Finite? {
      assert FiniteOf(ns) == [ns[0].r] + FiniteOf(ns[1..]);
      CountCons(FiniteOf(ns), x);
    } else {
      assert FiniteOf(ns) == FiniteOf(ns[1..]);
    }
  }

  /** `_parse_finite_numbers` on the regular-expression path: the numbers
      the scanner finds, finite ones only. */
  function FiniteNumbers(data: seq<byte>): seq<real>
  {
    FiniteOf(NumericalComparator.Numbers(data))
  }

  // ---------------------------------------------------------------------
  // Summary statistics
  // ---------------------------------------------------------------------

  /** The sum of `f` over the values. */
  function SumOf(s: seq<real>, f: real -> real): real
  {
    if s == [] then 0.0 else f(s[0]) + SumOf(s[1..], f)
  }

  function Sum(s: seq<real>): real
  {
    SumOf(s, x => x)
  }

  /** Bounds on the elements bound the sum. */
  lemma {:induction false} SumBounds(s: seq<real>, lo: real, hi: real)
    requires forall k | 0 <= k < |s| :: lo <= s[k] <= hi
    ensures |s| as real * lo <= Sum(s) <= |s| as real * hi
  {
    if s != [] {
      SumBounds(s[1..], lo, hi);
    }
  }

  lemma {:induction false} SumOfNonNegative(s: seq<real>, f: real -> real)
    requires forall k | 0 <= k < |s| :: f(s[k]) >= 0.0
    ensures SumOf(s, f) >= 0.0
  {
    if s != [] {
      SumOfNonNegative(s[1..], f);
    }
  }

  /** `min(values)`. */
  function MinOf(s: seq<real>): (m: real)
    requires |s| > 0
    ensures m in s
    ensures forall k | 0 <= k < |s| :: m <= s[k]
  {
    if |s| == 1 then s[0] else Min(s[0], MinOf(s[1..]))
  }

  /** `max(values)`. */
  function MaxOf(s: seq<real>): (m: real)
    requires |s| > 0
    ensures m in s
    ensures forall k | 0 <= k < |s| :: s[k] <= m
  {
    if |s| == 1 then s[0] else Max(s[0], MaxOf(s[1..]))
  }

  /** The arithmetic mean lies between the extremes. */
  function Mean(s: seq<real>): (m: real)
    requires |s| > 0
    ensures MinOf(s) <= m <= MaxOf(s)
  {
    var n := |s| as real;
    SumBounds(s, MinOf(s), MaxOf(s));
    DivBetween(Sum(s), n, MinOf(s), MaxOf(s));
    Sum(s) / n
  }

  lemma SquareNonNegative(d: real)
    ensures d * d >= 0.0
  {
    if d < 0.0 {
      assert d * d == (-d) * (-d);
    }
  }

  /** The sum of squared deviations from `m`. */
  function SquaredDeviations(s: seq<real>, m: real): (q: real)
    ensures q >= 0.0
  {
    forall k | 0 <= k < |s|
      ensures (s[k] - m) * (s[k] - m) >= 0.0
    {
      SquareNonNegative(s[k] - m);
    }
    SumOfNonNegative(s, x => (x - m) * (x - m));
    SumOf(s, x => (x - m) * (x - m))
  }

  /** The population variance (divided by n, as numpy does by default). */
  function Variance(s: seq<real>): (v: real)
    requires |s| > 0
    ensures v >= 0.0
  {
    SquaredDeviations(s, Mean(s)) / |s| as real
  }

  /** The middle element of a sorted sequence, or the mean of the two
      middle elements when the length is even. */
  function Middle(sorted: seq<real>): real
    requires |sorted| > 0
  {
    var n := |sorted|;
    if n % 2 == 1 then sorted[n / 2] else (sorted[n / 2 - 1] + sorted[n / 2]) / 2.0
  }

  /** The middle element of the sorted values for odd n, the mean of the
      two middle ones for even n: in either case between the extremes, and
      one of the values when n is odd. */
  function Median(s: seq<real>): (m: real)
    requires |s| > 0
    ensures MinOf(s) <= m <= MaxOf(s)
    ensures |s| % 2 == 1 ==> m in s
  {
    var sorted, n := Sort(s), |s|;
    assert forall k | 0 <= k < n :: MinOf(s) <= sorted[k] <= MaxOf(s) by {
      forall k | 0 <= k < n
        ensures MinOf(s) <= sorted[k] <= MaxOf(s)
      {
        assert sorted[k] in multiset(sorted);
        assert sorted[k] in multiset(s);
      }
    }
    assert n % 2 == 1 ==> sorted[n / 2] in multiset(sorted);
    Middle(sorted)
  }

  /** `_summary`. The square root is a parameter: the model computes over
      exact reals and leaves `math.sqrt` to the caller. */
  function Summary(s: seq<real>, sqrt: real -> real): (st: Stats)
    requires |s| > 0
    ensures st.min in s && st.max in s
    ensures forall k | 0 <= k < |s| :: st.min <= s[k] <= st.max
    ensures st.min <= st.mean <= st.max
    ensures st.min <= st.median <= st.max
    ensures st.std == sqrt(Variance(s))
  {
    Stats(Mean(s), sqrt(Variance(s)), MinOf(s), MaxOf(s), Median(s))
  }

  // ---------------------------------------------------------------------
  // Deviations
  // ---------------------------------------------------------------------

  /** `_normalised_deviation`: zero exactly for equal statistics, else the
      difference relative to the larger magnitude (at least 1). */
  function NormDev(e: real, a: real): (d: real)
    ensures d >= 0.0
    ensures d == 0.0 <==> e == a
    ensures e != a ==> d * Max(Max(Abs(e), Abs(a)), 1.0) == Abs(e - a)
    ensures d <= 2.0
  {
    if e == a then 0.0
    else
      var diff, scale := Abs(e - a), Max(Max(Abs(e), Abs(a)), 1.0);
      DivBetween(diff, scale, 0.0, 2.0);
      diff / scale
  }

  lemma NormDevSymmetric(e: real, a: real)
    ensures NormDev(e, a) == NormDev(a, e)
  {
    assert Abs(e - a) == Abs(a - e);
    assert Max(Max(Abs(e), Abs(a)), 1.0) == Max(Max(Abs(a), Abs(e)), 1.0);
  }

  function Deviations(x: Stats, y: Stats): Stats
  {
    Stats(NormDev(x.mean, y.mean), NormDev(x.std, y.std), NormDev(x.min, y.min),
          NormDev(x.max, y.max), NormDev(x.median, y.median))
  }

  /** The running maximum, from 0, over mean, std, min, max, median. */
  function MaxDeviation(d: Stats): (m: real)
    ensures m >= 0.0
    ensures m >= d.mean && m >= d.std && m >= d.min && m >= d.max && m >= d.median
    ensures m == 0.0 || m == d.mean || m == d.std || m == d.min || m == d.max || m == d.median
  {
    Max(Max(Max(Max(Max(0.0, d.mean), d.std), d.min), d.max), d.median)
  }

  // ---------------------------------------------------------------------
  // Kolmogorov-Smirnov merge walk
  // ---------------------------------------------------------------------

  function Ratio(i: nat, n: nat): (r: real)
    requires i <= n && n > 0
    ensures 0.0 <= r <= 1.0
  {
    i as real / n as real
  }

  /** One step of the merge walk: advance past the smaller head, or past
      both heads on a tie. */
  function KsStep(sa: seq<real>, sb: seq<real>, ia: nat, ib: nat): (next: (nat, nat))
    requires ia < |sa| && ib < |sb|
    ensures next.0 <= |sa| && next.1 <= |sb|
    ensures next.0 + next.1 > ia + ib
  {
    if sa[ia] < sb[ib] then (ia + 1, ib)
    else if sb[ib] < sa[ia] then (ia, ib + 1)
    else (ia + 1, ib + 1)
  }

  /** The walk over two sorted samples from positions `ia`, `ib`, keeping
      the largest gap between the two running fractions seen so far in
      `best`. */
  function KsWalk(sa: seq<real>, sb: seq<real>, ia: nat, ib: nat, best: real): (r: real)
    requires ia <= |sa| && ib <= |sb|
    ensures r >= best
    ensures 0.0 <= best <= 1.0 ==> r <= 1.0
    decreases |sa| - ia + |sb| - ib
  {
    if ia < |sa| && ib < |sb| then
      var next := KsStep(sa, sb, ia, ib);
      var diff := Abs(Ratio(next.0, |sa|) - Ratio(next.1, |sb|));
      KsWalk(sa, sb, next.0, next.1, if diff > best then diff else best)
    else best
  }

  /** `_ks_statistic` as a function of the two samples. */
  function Ks(a: seq<real>, b: seq<real>): (d: real)
    ensures 0.0 <= d <= 1.0
  {
    KsWalk(Sort(a), Sort(b), 0, 0, 0.0)
  }

  /** The imperative merge walk, computing `Ks`. */
  method KsStatistic(a: seq<real>, b: seq<real>) returns (d: real)
    ensures d == Ks(a, b)
    ensures 0.0 <= d <= 1.0
  {
    d := MergeWalk(Sort(a), Sort(b));
  }

  /** The loop of `_ks_statistic` over the two sorted samples. */
  method MergeWalk(sa: seq<real>, sb: seq<real>) returns (d: real)
    ensures d == KsWalk(sa, sb, 0, 0, 0.0)
    ensures 0.0 <= d <= 1.0
  {
    var na, nb := |sa|, |sb|;
    var ia: nat, ib: nat := 0, 0;
    d := 0.0;
    while ia < na && ib < nb
      invariant ia <= na && ib <= nb
      invariant 0.0 <= d <= 1.0
      invariant KsWalk(sa, sb, ia, ib, d) == KsWalk(sa, sb, 0, 0, 0.0)
      decreases na - ia + nb - ib
    {
      ghost var best := d;
      ghost var next := KsStep(sa, sb, ia, ib);
      if sa[ia] < sb[ib] {
        ia := ia + 1;
      } else if sb[ib] < sa[ia] {
        ib := ib + 1;
      } else {
        ia := ia + 1;
        ib := ib + 1;
      }
      assert (ia, ib) == next;
      var diff := Abs(Ratio(ia, na) - Ratio(ib, nb));
      if diff > d {
        d := diff;
      }
      assert d == if diff > best then diff else best;
    }
  }

  /** On one sample walked against itself the two fractions stay equal. */
  lemma {:induction false} KsWalkSame(s: seq<real>, i: nat)
    requires i <= |s|
    ensures KsWalk(s, s, i, i, 0.0) == 0.0
    decreases |s| - i
  {
    if i < |s| {
      KsWalkSame(s, i + 1);
    }
  }

  /** Samples with the same values, in any order, have statistic 0. */
  lemma KsOfPermutation(a: seq<real>, b: seq<real>)
    requires multiset(a) == multiset(b)
    ensures Ks(a, b) == 0.0
  {
    SortPermutationInvariant(a, b);
    KsWalkSame(Sort(a), 0);
  }

  // ---------------------------------------------------------------------
  // The comparator
  // ---------------------------------------------------------------------

  /** All five deviations within the significance level. */
  predicate WithinSignificance(d: Stats, significance: real)
  {
    d.mean <= significance && d.std <= significance && d.min <= significance
    && d.max <= significance && d.median <= significance
  }

  /** `StatisticalComparator.compare`. */
  function Compare(expected: seq<byte>, actual: seq<byte>, significance: real,
                   sqrt: real -> real): (r: ComparisonResult)
    ensures r.usedMethod == Statistical
    ensures 0.0 <= r.score <= 1.0
    ensures var ev, av := FiniteNumbers(expected), FiniteNumbers(actual);
      && (ev == [] && av == [] ==> r.matched && r.score == 1.0 && r.details == NoFiniteNumbers)
      && ((ev == []) != (av == []) ==>
            !r.matched && r.score == 0.0 && r.details == OneSideEmpty(|ev|, |av|))
      && (ev != [] && av != [] ==>
            && r.details.StatisticalDetails?
            && r.details.countExpected == |ev| && r.details.countActual == |av|
            && r.details.expectedStats == Summary(ev, sqrt)
            && r.details.actualStats == Summary(av, sqrt)
            && r.details.deviations == Deviations(Summary(ev, sqrt), Summary(av, sqrt))
            && r.details.maxDeviation == MaxDeviation(r.details.deviations)
            && (r.matched <==> WithinSignificance(r.details.deviations, significance))
            && r.score == Clamp01(1.0 - r.details.maxDeviation)
            && r.details.ksStatistic == Ks(ev, av))
  {
    CompareSamples(FiniteNumbers(expected), FiniteNumbers(actual), significance, sqrt)
  }

  /** The comparison of the two samples of finite numbers. */
  function CompareSamples(ev: seq<real>, av: seq<real>, significance: real,
                          sqrt: real -> real): (r: ComparisonResult)
    ensures r.usedMethod == Statistical
    ensures 0.0 <= r.score <= 1.0
    ensures ev == [] && av == [] ==> r.matched && r.score == 1.0 && r.details == NoFiniteNumbers
    ensures (ev == []) != (av == []) ==>
              !r.matched && r.score == 0.0 && r.details == OneSideEmpty(|ev|, |av|)
    ensures ev != [] && av != [] ==>
              && r.details.StatisticalDetails?
              && r.details.countExpected == |ev| && r.details.countActual == |av|
              && r.details.expectedStats == Summary(ev, sqrt)
              && r.details.actualStats == Summary(av, sqrt)
              && r.details.deviations == Deviations(Summary(ev, sqrt), Summary(av, sqrt))
              && r.details.maxDeviation == MaxDeviation(r.details.deviations)
              && (r.matched <==> WithinSignificance(r.details.deviations, significance))
              && r.score == Clamp01(1.0 - r.details.maxDeviation)
              && r.details.ksStatistic == Ks(ev, av)
  {
    if ev == [] && av == [] then
      ComparisonResult(true, Statistical, 1.0, NoFiniteNumbers)
    else if ev == [] || av == [] then
      ComparisonResult(false, Statistical, 0.0, OneSideEmpty(|ev|, |av|))
    else
      var es, as_ := Summary(ev, sqrt), Summary(av, sqrt);
      var devs := Deviations(es, as_);
      var maxDev := MaxDeviation(devs);
      ComparisonResult(maxDev <= significance, Statistical, Clamp01(1.0 - maxDev),
                       StatisticalDetails(|ev|, |av|, es, as_, devs, maxDev, Ks(ev, av)))
  }

  // ---------------------------------------------------------------------
  // Properties
  // ---------------------------------------------------------------------

  lemma SumOfCons(x: real, s: seq<real>, f: real -> real)
    ensures SumOf([x] + s, f) == f(x) + SumOf(s, f)
  {
    assert ([x] + s)[1..] == s;
  }

  lemma {:induction false} SumOfInsert(x: real, s: seq<real>, f: real -> real)
    requires Sorted(s)
    ensures SumOf(Insert(x, s), f) == f(x) + SumOf(s, f)
  {
    if s == [] || x <= s[0] {
      SumOfCons(x, s, f);
    } else {
      SortedTail(s);
      SumOfInsert(x, s[1..], f);
      SumOfInsertAfterHead(x, s, f);
    }
  }

  /** The step of `SumOfInsert` past the head, given the tail's case. */
  lemma SumOfInsertAfterHead(x: real, s: seq<real>, f: real -> real)
    requires Sorted(s) && s != [] && s[0] < x && Sorted(s[1..])
    requires SumOf(Insert(x, s[1..]), f) == f(x) + SumOf(s[1..], f)
    ensures SumOf(Insert(x, s), f) == f(x) + SumOf(s, f)
  {
    var t := s[1..];
    assert Insert(x, s) == [s[0]] + Insert(x, t);
    SumOfCons(s[0], Insert(x, t), f);
    SumOfCons(s[0], t, f);
    assert s == [s[0]] + t;
  }

  /** A sum does not depend on the order of the values. */
  lemma {:induction false} SumOfSort(s: seq<real>, f: real -> real)
    ensures SumOf(Sort(s), f) == SumOf(s, f)
  {
    if s != [] {
      SumOfSort(s[1..], f);
      SumOfInsert(s[0], Sort(s[1..]), f);
      SumOfCons(s[0], s[1..], f);
      assert s == [s[0]] + s[1..];
    }
  }

  lemma SumOfPermutation(s: seq<real>, t: seq<real>, f: real -> real)
    requires multiset(s) == multiset(t)
    ensures SumOf(s, f) == SumOf(t, f)
  {
    SortPermutationInvariant(s, t);
    SumOfSort(s, f);
    SumOfSort(t, f);
  }

  /** The extremes of two samples with the same values coincide. */
  lemma ExtremesOfPermutation(s: seq<real>, t: seq<real>)
    requires |s| > 0 && multiset(s) == multiset(t)
    ensures |t| > 0 && MinOf(s) == MinOf(t) && MaxOf(s) == MaxOf(t)
  {
    assert |t| == |multiset(t)| == |multiset(s)| == |s|;
    assert MinOf(s) in multiset(t) && MinOf(t) in multiset(s);
    assert MaxOf(s) in multiset(t) && MaxOf(t) in multiset(s);
  }

  lemma MeanOfPermutation(s: seq<real>, t: seq<real>)
    requires |s| > 0 && multiset(s) == multiset(t)
    ensures |t| == |s| && Mean(s) == Mean(t)
  {
    assert |t| == |multiset(t)| == |multiset(s)| == |s|;
    SumOfPermutation(s, t, x => x);
  }

  lemma VarianceOfPermutation(s: seq<real>, t: seq<real>)
    requires |s| > 0 && multiset(s) == multiset(t)
    ensures |t| == |s| && Variance(s) == Variance(t)
  {
    MeanOfPermutation(s, t);
    var m := Mean(s);
    SumOfPermutation(s, t, x => (x - m) * (x - m));
  }

  lemma MedianOfPermutation(s: seq<real>, t: seq<real>)
    requires |s| > 0 && multiset(s) == multiset(t)
    ensures |t| == |s| && Median(s) == Median(t)
  {
    assert |t| == |multiset(t)| == |multiset(s)| == |s|;
    SortPermutationInvariant(s, t);
  }

  /** The summary depends only on the values, not on their order. */
  lemma SummaryOfPermutation(s: seq<real>, t: seq<real>, sqrt: real -> real)
    requires |s| > 0 && multiset(s) == multiset(t)
    ensures |t| > 0 && Summary(s, sqrt) == Summary(t, sqrt)
  {
    ExtremesOfPermutation(s, t);
    MeanOfPermutation(s, t);
    VarianceOfPermutation(s, t);
    MedianOfPermutation(s, t);
  }

  /** The comparison depends only on the values of each payload, not on
      where they appear: reordering the numbers changes nothing. */
  lemma CompareOfPermutation(e1: seq<byte>, a1: seq<byte>, e2: seq<byte>, a2: seq<byte>,
                             significance: real, sqrt: real -> real)
    requires multiset(FiniteNumbers(e1)) == multiset(FiniteNumbers(e2))
    requires multiset(FiniteNumbers(a1)) == multiset(FiniteNumbers(a2))
    ensures Compare(e1, a1, significance, sqrt) == Compare(e2, a2, significance, sqrt)
  {
    SamplesOfPermutation(FiniteNumbers(e1), FiniteNumbers(a1), FiniteNumbers(e2), FiniteNumbers(a2),
                         significance, sqrt);
  }

  lemma SamplesOfPermutation(ev1: seq<real>, av1: seq<real>, ev2: seq<real>, av2: seq<real>,
                             significance: real, sqrt: real -> real)
    requires multiset(ev1) == multiset(ev2) && multiset(av1) == multiset(av2)
    ensures CompareSamples(ev1, av1, significance, sqrt) == CompareSamples(ev2, av2, significance, sqrt)
  {
    assert |ev1| == |multiset(ev1)| == |multiset(ev2)| == |ev2|;
    assert |av1| == |multiset(av1)| == |multiset(av2)| == |av2|;
    if ev1 != [] && av1 != [] {
      SummaryOfPermutation(ev1, ev2, sqrt);
      SummaryOfPermutation(av1, av2, sqrt);
      SortPermutationInvariant(ev1, ev2);
      SortPermutationInvariant(av1, av2);
    }
  }

  /** Every payload matches itself at any non-negative significance level,
      with score 1. */
  lemma CompareReflexive(data: seq<byte>, significance: real, sqrt: real -> real)
    requires significance >= 0.0
    ensures Compare(data, data, significance, sqrt).matched
    ensures Compare(data, data, significance, sqrt).score == 1.0
  {
  }

  /** The Kolmogorov-Smirnov statistic never decides the verdict: two
      comparisons with the same summaries agree on `matched` and `score`. */
  lemma VerdictIgnoresKs(e1: seq<byte>, a1: seq<byte>, e2: seq<byte>, a2: seq<byte>,
                         significance: real, sqrt: real -> real)
    requires FiniteNumbers(e1) != [] && FiniteNumbers(a1) != []
    requires FiniteNumbers(e2) != [] && FiniteNumbers(a2) != []
    requires Summary(FiniteNumbers(e1), sqrt) == Summary(FiniteNumbers(e2), sqrt)
    requires Summary(FiniteNumbers(a1), sqrt) == Summary(FiniteNumbers(a2), sqrt)
    ensures Compare(e1, a1, significance, sqrt).matched == Compare(e2, a2, significance, sqrt).matched
    ensures Compare(e1, a1, significance, sqrt).score == Compare(e2, a2, significance, sqrt).score
  {
    SamplesVerdictIgnoresKs(FiniteNumbers(e1), FiniteNumbers(a1), FiniteNumbers(e2), FiniteNumbers(a2),
                            significance, sqrt);
  }

  /** The same, for the samples themselves. */
  lemma SamplesVerdictIgnoresKs(ev1: seq<real>, av1: seq<real>, ev2: seq<real>, av2: seq<real>,
                                significance: real, sqrt: real -> real)
    requires ev1 != [] && av1 != [] && ev2 != [] && av2 != []
    requires Summary(ev1, sqrt) == Summary(ev2, sqrt) && Summary(av1, sqrt) == Summary(av2, sqrt)
    ensures CompareSamples(ev1, av1, significance, sqrt).matched
            == CompareSamples(ev2, av2, significance, sqrt).matched
    ensures CompareSamples(ev1, av1, significance, sqrt).score
            == CompareSamples(ev2, av2, significance, sqrt).score
  {
  }
}
