/** The numerical comparator: the numbers of both payloads, paired by
    position, compared with `numpy.allclose`-style tolerance, NaN equal to
    NaN; every unpaired value is a mismatch of infinite error. */
module NumericalComparator {
  import opened Wrappers
  import opened Floats
  import opened NumberScan
  import opened Utf8
  import opened Enums
  import opened Comparison
  import Decimal

  const DefaultRtol: real := 0.0000000001
  const DefaultAtol: real := 0.000000000001

  /** Converts every token, failing on the first one `float()` rejects. */
  function ConvertAll(tokens: seq<string>): (r: Result<seq<Number>>)
    ensures r.Ok? <==> forall i | 0 <= i < |tokens| :: ToFloat(tokens[i]).Some?
    ensures r.Ok? ==> |r.value| == |tokens|
                      && forall i | 0 <= i < |tokens| :: r.value[i] == ToFloat(tokens[i]).value
  {
    if tokens == [] then Ok([])
    else match ToFloat(tokens[0])
      case None => Err(ValueError("could not convert string to float"))
      case Some(v) =>
        match ConvertAll(tokens[1..])
        case Err(e) => Err(e)
        case Ok(vs) => Ok([v] + vs)
  }

  /** `_parse_numbers` on the regular-expression path: the decoded text is
      scanned and every token converted. */
  function ParseNumbers(data: seq<byte>, widened: bool): Result<seq<Number>>
  {
    ConvertAll(Scan(DecodeReplace(data), widened))
  }

  /** With ASCII case folding the parse never raises. */
  lemma ParseNumbersTotal(data: seq<byte>)
    ensures ParseNumbers(data, false).Ok?
  {
    var tokens := Scan(DecodeReplace(data), false);
    ScannedTokensConvert(DecodeReplace(data));
    assert forall i | 0 <= i < |tokens| :: tokens[i] in tokens;
  }

  /** With the regular expression engine's Unicode folding of `i`, a payload
      containing `ınf` makes the parse, and so the comparison, raise. */
  lemma WidenedParseRaises()
    ensures ParseNumbers(Encode("\U{0131}nf"), true).Err?
  {
    var s := "\U{0131}nf";
    DecodeEncodeRoundTrip(s);
    StrictAgreesWithReplace(Encode(s), 0);
    WidenedScanYieldsUnconvertible();
  }

  /** The numbers a payload contributes to the comparison. */
  function Numbers(data: seq<byte>): seq<Number>
  {
    ParseNumbersTotal(data);
    ParseNumbers(data, false).value
  }

  /** The specification of closeness: NaN is close only to NaN, equal
      values (infinities of one sign included) are close, and two distinct
      finite values are close when `|e - a| <= atol + rtol * |e|`. */
  predicate Close(e: Number, a: Number, rtol: real, atol: real)
  {
    (e.NaN? && a.NaN?)
    || (!e.NaN? && e == a)
    || (e.Finite? && a.Finite? && Abs(e.r - a.r) <= atol + rtol * Abs(e.r))
  }

  /** An error magnitude: a non-negative real or infinity. */
  predicate IsError(n: Number)
  {
    n.PosInf? || (n.Finite? && n.r >= 0.0)
  }

  datatype Closeness = Closeness(absErr: Number, relErr: Number, ok: bool)

  /** `_values_close`. */
  function ValuesClose(e: Number, a: Number, rtol: real, atol: real): (c: Closeness)
    ensures c.ok <==> Close(e, a, rtol, atol)
    ensures IsError(c.absErr) && IsError(c.relErr)
    ensures (e.NaN? || a.NaN?) && !(e.NaN? && a.NaN?) ==> c.absErr.PosInf? && c.relErr.PosInf?
    ensures e != a && (e.IsInf() || a.IsInf()) ==> c.absErr.PosInf? && c.relErr.PosInf? && !c.ok
    ensures c.absErr.PosInf? <==> c.relErr.PosInf?
    ensures c.absErr.PosInf? ==> !c.ok
    ensures (e.NaN? && a.NaN?) || FloatEq(e, a) ==> c == Closeness(Finite(0.0), Finite(0.0), true)
  {
    if e.NaN? && a.NaN? then Closeness(Finite(0.0), Finite(0.0), true)
    else if e.NaN? || a.NaN? then Closeness(PosInf, PosInf, false)
    else if e == a then Closeness(Finite(0.0), Finite(0.0), true)
    else if e.IsInf() || a.IsInf() then Closeness(PosInf, PosInf, false)
    else
      var absErr := Abs(e.r - a.r);
      var relErr := if e.r == 0.0 then absErr else absErr / Abs(e.r);
      Closeness(Finite(absErr), Finite(relErr), absErr <= atol + rtol * Abs(e.r))
  }

  /** `max` over error magnitudes. */
  function ErrMax(x: Number, y: Number): (m: Number)
    requires IsError(x) && IsError(y)
    ensures IsError(m)
    ensures m.PosInf? <==> x.PosInf? || y.PosInf?
    ensures m.Finite? ==> m.r >= x.r && m.r >= y.r && (m.r == x.r || m.r == y.r)
  {
    if x.PosInf? || y.PosInf? then PosInf else Finite(Max(x.r, y.r))
  }

  datatype PairScan = PairScan(mismatches: seq<Mismatch>, maxAbs: Number, maxRel: Number)

  /** The loop over the first `n` pairs: mismatch entries in index order and
      the running maxima of both errors. */
  function ScanPairs(ev: seq<Number>, av: seq<Number>, n: nat, rtol: real, atol: real): (p: PairScan)
    requires n <= |ev| && n <= |av|
    ensures IsError(p.maxAbs) && IsError(p.maxRel)
    ensures p.mismatches == [] <==> forall i | 0 <= i < n :: Close(ev[i], av[i], rtol, atol)
    ensures forall k | 0 <= k < |p.mismatches| ::
              p.mismatches[k].index < n
              && !Close(ev[p.mismatches[k].index], av[p.mismatches[k].index], rtol, atol)
              && p.mismatches[k].onlyIn.None?
    ensures forall k, l | 0 <= k < l < |p.mismatches| :: p.mismatches[k].index < p.mismatches[l].index
    ensures p.maxRel.PosInf? ==> p.mismatches != []
    ensures p.maxAbs.PosInf? <==> p.maxRel.PosInf?
  {
    if n == 0 then PairScan([], Finite(0.0), Finite(0.0))
    else
      var prev := ScanPairs(ev, av, n - 1, rtol, atol);
      var i := n - 1;
      var c := ValuesClose(ev[i], av[i], rtol, atol);
      var ms := if c.ok then prev.mismatches
                else prev.mismatches + [Mismatch(i, Value(ev[i]), Value(av[i]), c.absErr, c.relErr, None)];
      PairScan(ms, ErrMax(prev.maxAbs, c.absErr), ErrMax(prev.maxRel, c.relErr))
  }

  /** The error of the pair at `i`, as `_values_close` reports it. */
  function RelErrAt(ev: seq<Number>, av: seq<Number>, i: nat, rtol: real, atol: real): Number
    requires i < |ev| && i < |av|
  {
    ValuesClose(ev[i], av[i], rtol, atol).relErr
  }

  function AbsErrAt(ev: seq<Number>, av: seq<Number>, i: nat, rtol: real, atol: real): Number
    requires i < |ev| && i < |av|
  {
    ValuesClose(ev[i], av[i], rtol, atol).absErr
  }

  /** The running maximum of the relative errors, from 0, is infinite
      exactly when some pair's error is, and is otherwise at least every
      pair's error and either 0 or one of them. */
  lemma {:induction false} ScanPairsMaxRel(ev: seq<Number>, av: seq<Number>, n: nat, rtol: real, atol: real)
    requires n <= |ev| && n <= |av|
    ensures var m := ScanPairs(ev, av, n, rtol, atol).maxRel;
      && (m.PosInf? <==> exists i | 0 <= i < n :: RelErrAt(ev, av, i, rtol, atol).PosInf?)
      && (m.Finite? ==> forall i | 0 <= i < n :: RelErrAt(ev, av, i, rtol, atol).r <= m.r)
      && (m.Finite? ==> m.r == 0.0 || exists i | 0 <= i < n :: RelErrAt(ev, av, i, rtol, atol) == m)
  {
    if n > 0 {
      ScanPairsMaxRel(ev, av, n - 1, rtol, atol);
      var m0, c := ScanPairs(ev, av, n - 1, rtol, atol).maxRel, RelErrAt(ev, av, n - 1, rtol, atol);
      var m := ScanPairs(ev, av, n, rtol, atol).maxRel;
      assert m == ErrMax(m0, c);
      if c.PosInf? {
        assert RelErrAt(ev, av, n - 1, rtol, atol).PosInf?;
      } else if m0.PosInf? {
        var j :| 0 <= j < n - 1 && RelErrAt(ev, av, j, rtol, atol).PosInf?;
        assert RelErrAt(ev, av, j, rtol, atol).PosInf?;
      } else {
        assert forall i | 0 <= i < n :: !RelErrAt(ev, av, i, rtol, atol).PosInf? by {
          forall i | 0 <= i < n
            ensures !RelErrAt(ev, av, i, rtol, atol).PosInf?
          {
            if i < n - 1 {
              assert !RelErrAt(ev, av, i, rtol, atol).PosInf?;
            }
          }
        }
        if m.r != c.r && m.r != 0.0 {
          assert m.r == m0.r;
          var j :| 0 <= j < n - 1 && RelErrAt(ev, av, j, rtol, atol) == m0;
          assert RelErrAt(ev, av, j, rtol, atol) == m;
        }
      }
    }
  }

  /** The same for the absolute errors. */
  lemma {:induction false} ScanPairsMaxAbs(ev: seq<Number>, av: seq<Number>, n: nat, rtol: real, atol: real)
    requires n <= |ev| && n <= |av|
    ensures var m := ScanPairs(ev, av, n, rtol, atol).maxAbs;
      && (m.PosInf? <==> exists i | 0 <= i < n :: AbsErrAt(ev, av, i, rtol, atol).PosInf?)
      && (m.Finite? ==> forall i | 0 <= i < n :: AbsErrAt(ev, av, i, rtol, atol).r <= m.r)
      && (m.Finite? ==> m.r == 0.0 || exists i | 0 <= i < n :: AbsErrAt(ev, av, i, rtol, atol) == m)
  {
    if n > 0 {
      ScanPairsMaxAbs(ev, av, n - 1, rtol, atol);
      var m0, c := ScanPairs(ev, av, n - 1, rtol, atol).maxAbs, AbsErrAt(ev, av, n - 1, rtol, atol);
      var m := ScanPairs(ev, av, n, rtol, atol).maxAbs;
      assert m == ErrMax(m0, c);
      if c.PosInf? {
        assert AbsErrAt(ev, av, n - 1, rtol, atol).PosInf?;
      } else if m0.PosInf? {
        var j :| 0 <= j < n - 1 && AbsErrAt(ev, av, j, rtol, atol).PosInf?;
        assert AbsErrAt(ev, av, j, rtol, atol).PosInf?;
      } else {
        assert forall i | 0 <= i < n :: !AbsErrAt(ev, av, i, rtol, atol).PosInf? by {
          forall i | 0 <= i < n
            ensures !AbsErrAt(ev, av, i, rtol, atol).PosInf?
          {
            if i < n - 1 {
              assert !AbsErrAt(ev, av, i, rtol, atol).PosInf?;
            }
          }
        }
        if m.r != c.r && m.r != 0.0 {
          assert m.r == m0.r;
          var j :| 0 <= j < n - 1 && AbsErrAt(ev, av, j, rtol, atol) == m0;
          assert AbsErrAt(ev, av, j, rtol, atol) == m;
        }
      }
    }
  }

  /** Every pair that is not close has an entry. */
  lemma {:induction false} ScanPairsComplete(ev: seq<Number>, av: seq<Number>, n: nat, rtol: real, atol: real, i: nat)
    requires n <= |ev| && n <= |av| && i < n
    requires !Close(ev[i], av[i], rtol, atol)
    ensures exists k | 0 <= k < |ScanPairs(ev, av, n, rtol, atol).mismatches| ::
              ScanPairs(ev, av, n, rtol, atol).mismatches[k].index == i
  {
    var ms := ScanPairs(ev, av, n, rtol, atol).mismatches;
    if i == n - 1 {
      assert ms[|ms| - 1].index == i;
    } else {
      ScanPairsComplete(ev, av, n - 1, rtol, atol, i);
      var k :| 0 <= k < |ScanPairs(ev, av, n - 1, rtol, atol).mismatches|
               && ScanPairs(ev, av, n - 1, rtol, atol).mismatches[k].index == i;
      assert ms[k].index == i;
    }
  }

  /** The entries for values beyond the shorter sequence. */
  function Unpaired(ev: seq<Number>, av: seq<Number>): (ms: seq<Mismatch>)
    ensures |ms| == if |ev| < |av| then |av| - |ev| else |ev| - |av|
    ensures forall k | 0 <= k < |ms| ::
              ms[k].absoluteError.PosInf? && ms[k].relativeError.PosInf? && ms[k].onlyIn.Some?
              && ms[k].index == (if |ev| < |av| then |ev| else |av|) + k
  {
    var pairs := if |ev| < |av| then |ev| else |av|;
    var longer := if |ev| < |av| then |av| else |ev|;
    var side := if |ev| > |av| then InExpected else InActual;
    seq(longer - pairs, k requires 0 <= k < longer - pairs =>
      var i := pairs + k;
      Mismatch(i, if i < |ev| then Value(ev[i]) else Missing,
               if i < |av| then Value(av[i]) else Missing, PosInf, PosInf, Some(side)))
  }

  /** The comparison of two number sequences, whatever their source. */
  function CompareValues(ev: seq<Number>, av: seq<Number>, rtol: real, atol: real): (r: ComparisonResult)
    ensures r.usedMethod == NumericalTolerance && r.details.NumericalDetails?
    ensures r.details.valuesCompared == if |ev| < |av| then |av| else |ev|
    ensures r.matched <==> r.details.mismatches == []
    ensures r.matched <==>
              |ev| == |av| && forall i | 0 <= i < |ev| :: Close(ev[i], av[i], rtol, atol)
    ensures 0.0 <= r.score <= 1.0
    ensures IsError(r.details.maxRelativeError) && IsError(r.details.maxAbsoluteError)
    ensures r.score == if r.details.maxRelativeError.PosInf? then 0.0
                       else Clamp01(1.0 - r.details.maxRelativeError.r)
    ensures |ev| != |av| ==> r.score == 0.0 && r.details.maxRelativeError.PosInf?
                             && r.details.maxAbsoluteError.PosInf?
    ensures |ev| == |av| ==>
              r.details.maxRelativeError == ScanPairs(ev, av, |ev|, rtol, atol).maxRel
              && r.details.maxAbsoluteError == ScanPairs(ev, av, |ev|, rtol, atol).maxAbs
              && r.details.mismatches == ScanPairs(ev, av, |ev|, rtol, atol).mismatches
    ensures ev == [] && av == [] ==> r.matched && r.score == 1.0
    ensures var pairs := if |ev| < |av| then |ev| else |av|;
            var diff := r.details.valuesCompared - pairs;
            var ms := r.details.mismatches;
            |ms| >= diff
            && (forall k | 0 <= k < |ms| - diff :: ms[k].index < pairs && ms[k].onlyIn.None?)
            && (forall k | |ms| - diff <= k < |ms| ::
                  ms[k].index == pairs + (k - (|ms| - diff)) && ms[k].onlyIn.Some?
                  && ms[k].absoluteError.PosInf?)
  {
    var count := if |ev| < |av| then |av| else |ev|;
    if count == 0 then
      ComparisonResult(true, NumericalTolerance, 1.0,
                       NumericalDetails(Finite(0.0), Finite(0.0), 0, []))
    else
      var pairs := if |ev| < |av| then |ev| else |av|;
      var p := ScanPairs(ev, av, pairs, rtol, atol);
      var lengthMismatch := |ev| != |av|;
      var ms := if lengthMismatch then p.mismatches + Unpaired(ev, av) else p.mismatches;
      var maxAbs := if lengthMismatch then PosInf else p.maxAbs;
      var maxRel := if lengthMismatch then PosInf else p.maxRel;
      var score := if maxRel.PosInf? then 0.0 else Clamp01(1.0 - maxRel.r);
      ComparisonResult(ms == [], NumericalTolerance, score,
                       NumericalDetails(maxRel, maxAbs, count, ms))
  }

  /** `NumericalComparator.compare`. */
  function Compare(expected: seq<byte>, actual: seq<byte>, rtol: real, atol: real): (r: ComparisonResult)
    ensures r.usedMethod == NumericalTolerance
    ensures r.matched <==>
              var ev, av := Numbers(expected), Numbers(actual);
              |ev| == |av| && forall i | 0 <= i < |ev| :: Close(ev[i], av[i], rtol, atol)
    ensures 0.0 <= r.score <= 1.0
    ensures r.details.NumericalDetails? && r.details.maxRelativeError.Finite? ==>
              r.score == Clamp01(1.0 - r.details.maxRelativeError.r)
    ensures r.details.NumericalDetails? && !r.details.maxRelativeError.Finite? ==> r.score == 0.0
    ensures r.details.NumericalDetails?
    ensures |Numbers(expected)| == |Numbers(actual)| ==>
              r.details.maxRelativeError
                == ScanPairs(Numbers(expected), Numbers(actual), |Numbers(expected)|, rtol, atol).maxRel
  {
    CompareValues(Numbers(expected), Numbers(actual), rtol, atol)
  }

  // The conversion of `1.23e+02` and `123.0`, one layer per lemma (digits,
  // mantissa, exponent, decimal value, sign and case): the evaluation that
  // `FortranTokenValue` and `DecimalTokenValue` rest on, kept in small steps
  // so that no single proof unfolds the whole parser on a literal.
  lemma DigitsValue123()
    ensures Decimal.ParseDigits("123") == 123 && Decimal.ParseDigits("1230") == 1230
    ensures Decimal.ParseDigits("02") == 2
  {
    assert "1230"[..3] == "123";
    assert "123"[..2] == "12" && "12"[..1] == "1" && "1"[..0] == "";
    assert "02"[..1] == "0" && "0"[..0] == "";
  }

  lemma MantissaValueSci()
    ensures Mantissa("1.23") == Some((123, 2))
  {
    DigitsValue123();
    assert IndexOf("1.23", '.') == 1;
    assert "1.23"[..1] + "1.23"[2..] == "123";
  }

  lemma MantissaValuePlain()
    ensures Mantissa("123.0") == Some((1230, 1))
  {
    DigitsValue123();
    assert IndexOf("123.0", '.') == 3;
    assert "123.0"[..3] + "123.0"[4..] == "1230";
  }

  lemma ExponentValue()
    ensures Exponent("+02") == Some(2)
  {
    DigitsValue123();
    assert "+02"[1..] == "02";
  }

  lemma DecimalValueSci()
    ensures DecimalValue("1.23e+02") == Some(123.0)
  {
    MantissaValueSci();
    ExponentValue();
    var b := "1.23e+02";
    FirstExpAt(b, 4);
    assert b[..4] == "1.23" && b[5..] == "+02";
    assert Scale(123, 0) == 123.0;
  }

  lemma DecimalValuePlain()
    ensures DecimalValue("123.0") == Some(123.0)
  {
    MantissaValuePlain();
    var c := "123.0";
    assert FirstExp(c) == 5;
    assert c[..5] == c;
    assert Scale(1230, -1) == 123.0;
  }

  lemma ReplaceDIdentity(t: string)
    requires forall k | 0 <= k < |t| :: t[k] != 'd' && t[k] != 'D'
    ensures ReplaceD(t) == t
  {
  }

  lemma UnsignedValue123(b: string)
    requires DecimalValue(b) == Some(123.0)
    requires |b| > 0 && b[0] == '1'
    ensures UnsignedValue(b) == Some(Finite(123.0))
  {
    assert AsciiLowerAll(b)[0] == '1';
  }

  /** The Fortran token `1.23D+02` reads as 123. */
  lemma FortranTokenValue()
    ensures ToFloat("1.23D+02") == Some(Finite(123.0))
  {
    SpellingsAgree("1.23D+02", "1.23e+02");
    ExponentTokenValue();
  }

  predicate LowerMark(c: char) { c == 'e' || c == 'd' || c == 'D' }

  /** Two tokens that differ only in the case or letter of the exponent
      marker `d`/`D`/`e` convert alike. */
  lemma SpellingsAgree(t: string, u: string)
    requires |t| == |u|
    requires forall k | 0 <= k < |t| :: t[k] == u[k] || (LowerMark(t[k]) && LowerMark(u[k]))
    ensures ToFloat(t) == ToFloat(u)
  {
    assert ReplaceD(t) == ReplaceD(u);
  }

  lemma ExponentTokenValue()
    ensures ToFloat("1.23e+02") == Some(Finite(123.0))
  {
    ReplaceDIdentity("1.23e+02");
    DecimalValueSci();
    UnsignedValue123("1.23e+02");
  }

  /** `123.0` reads as 123. */
  lemma DecimalTokenValue()
    ensures ToFloat("123.0") == Some(Finite(123.0))
  {
    ReplaceDIdentity("123.0");
    DecimalValuePlain();
    UnsignedValue123("123.0");
  }

  /** Every sequence of numbers matches itself with score 1, whatever the
      tolerances: NaN against NaN and equal values are close by definition. */
  lemma CompareValuesReflexive(vs: seq<Number>, rtol: real, atol: real)
    ensures CompareValues(vs, vs, rtol, atol).matched
  {
  }

  /** Closeness is symmetric when the tolerance is purely absolute. */
  lemma CloseSymmetricAbsolute(e: Number, a: Number, atol: real)
    ensures Close(e, a, 0.0, atol) <==> Close(a, e, 0.0, atol)
  {
  }

  /** Loosening either tolerance never turns a match into a mismatch. */
  lemma CloseMonotone(e: Number, a: Number, rtol: real, atol: real, rtol': real, atol': real)
    requires rtol <= rtol' && atol <= atol'
    requires Close(e, a, rtol, atol)
    ensures Close(e, a, rtol', atol')
  {
    if e.Finite? && a.Finite? && e != a {
      ScaleMonotone(rtol, rtol', Abs(e.r));
    }
  }

  lemma ScaleMonotone(x: real, y: real, z: real)
    requires x <= y && z >= 0.0
    ensures x * z <= y * z
  {
    assert (y - x) * z >= 0.0;
  }
}
