/** The liberal number scanner shared by the numerical and statistical
    comparators: the pattern
      [+-]?(?:inf(?:inity)?|nan|(?:\d+\.?\d*|\.\d+)(?:[eEdD][+-]?\d+)?)
    compiled with IGNORECASE, applied `finditer`-style (leftmost match, then
    continue after it) to the decoded text, and the conversion of each token
    with `float()` after Fortran `D` exponents are rewritten to `e`.

    Case-insensitive matching of the letter `i` is parameterised: with
    `widened` it also accepts U+0130 and U+0131, as Python's regular
    expression engine does for a Unicode pattern; without it only ASCII case
    is folded. `float()` itself folds ASCII case only. */
module NumberScan {
  import opened Wrappers
  import opened Floats
  import opened Decimal

  function AsciiLower(c: char): char
  {
    if 'A' <= c <= 'Z' then (c as int + 32) as char else c
  }

  function AsciiLowerAll(s: string): (t: string)
    ensures |t| == |s|
    ensures forall k | 0 <= k < |s| :: t[k] == AsciiLower(s[k])
  {
    if s == [] then [] else [AsciiLower(s[0])] + AsciiLowerAll(s[1..])
  }

  /** Whether text character `c` matches lower-case pattern letter `w` under
      IGNORECASE. */
  predicate CharMatches(c: char, w: char, widened: bool)
  {
    AsciiLower(c) == w || (widened && w == 'i' && (c == '\U{0130}' || c == '\U{0131}'))
  }

  predicate WordAt(s: string, i: nat, w: string, widened: bool)
  {
    i + |w| <= |s| && forall k | 0 <= k < |w| :: CharMatches(s[i + k], w[k], widened)
  }

  /** End of the maximal run of ASCII digits starting at `i`. */
  function DigitRunEnd(s: string, i: nat): (j: nat)
    requires i <= |s|
    ensures i <= j <= |s|
    ensures forall k | i <= k < j :: IsDigit(s[k])
    ensures j < |s| ==> !IsDigit(s[j])
    decreases |s| - i
  {
    if i < |s| && IsDigit(s[i]) then DigitRunEnd(s, i + 1) else i
  }

  predicate IsExpMark(c: char) { c == 'e' || c == 'E' || c == 'd' || c == 'D' }

  predicate IsSign(c: char) { c == '+' || c == '-' }

  /** End of `(?:[eEdD][+-]?\d+)?` from `k`: the optional group is empty
      unless a marker, an optional sign and at least one digit follow. */
  function ExponentEnd(s: string, k: nat): (e: nat)
    requires k <= |s|
    ensures k <= e <= |s|
  {
    if k < |s| && IsExpMark(s[k]) then
      var d := if k + 1 < |s| && IsSign(s[k + 1]) then k + 2 else k + 1;
      if d < |s| && IsDigit(s[d]) then DigitRunEnd(s, d) else k
    else k
  }

  /** End of `(?:\d+\.?\d*|\.\d+)` from `j`, if it matches there. */
  function MantissaEnd(s: string, j: nat): (r: Option<nat>)
    requires j <= |s|
    ensures r.Some? ==> j < r.value <= |s|
  {
    if j < |s| && IsDigit(s[j]) then
      var d := DigitRunEnd(s, j);
      if d < |s| && s[d] == '.' then Some(DigitRunEnd(s, d + 1)) else Some(d)
    else if j + 1 < |s| && s[j] == '.' && IsDigit(s[j + 1]) then Some(DigitRunEnd(s, j + 1))
    else None
  }

  /** End of the unsigned alternatives from `j`, tried in pattern order. */
  function BodyEnd(s: string, j: nat, widened: bool): (r: Option<nat>)
    requires j <= |s|
    ensures r.Some? ==> j < r.value <= |s|
  {
    if WordAt(s, j, "inf", widened) then
      Some(if WordAt(s, j + 3, "inity", widened) then j + 8 else j + 3)
    else if WordAt(s, j, "nan", widened) then Some(j + 3)
    else match MantissaEnd(s, j)
      case None => None
      case Some(m) => Some(ExponentEnd(s, m))
  }

  /** End of the match starting exactly at `i`. When a sign is present but no
      body follows it, the engine retries without the sign, and then the body
      would have to start at the sign itself, which no body can. */
  function MatchAt(s: string, i: nat, widened: bool): (r: Option<nat>)
    requires i <= |s|
    ensures r.Some? ==> i < r.value <= |s|
  {
    if i < |s| && IsSign(s[i]) then BodyEnd(s, i + 1, widened) else BodyEnd(s, i, widened)
  }

  function ScanFrom(s: string, i: nat, widened: bool): seq<string>
    requires i <= |s|
    decreases |s| - i
  {
    if i == |s| then []
    else match MatchAt(s, i, widened)
      case Some(e) => [s[i..e]] + ScanFrom(s, e, widened)
      case None => ScanFrom(s, i + 1, widened)
  }

  /** The tokens `finditer` yields, in order. */
  function Scan(s: string, widened: bool): seq<string>
  {
    ScanFrom(s, 0, widened)
  }

  // ---------------------------------------------------------------------
  // float(): an independent reading of Python's float literal grammar
  // ---------------------------------------------------------------------

  function Pow10(n: nat): (p: nat)
    ensures p >= 1
  {
    if n == 0 then 1 else 10 * Pow10(n - 1)
  }

  /** `m * 10^e` as an exact real. */
  function Scale(m: nat, e: int): real
  {
    if e >= 0 then (m * Pow10(e)) as real else m as real / Pow10(-e) as real
  }

  function IndexOf(s: string, c: char): (k: nat)
    ensures k <= |s|
    ensures forall j | 0 <= j < k :: s[j] != c
    ensures k < |s| ==> s[k] == c
  {
    if s == [] then 0 else if s[0] == c then 0 else 1 + IndexOf(s[1..], c)
  }

  function FirstExp(s: string): (k: nat)
    ensures k <= |s|
    ensures forall j | 0 <= j < k :: s[j] != 'e' && s[j] != 'E'
    ensures k < |s| ==> s[k] == 'e' || s[k] == 'E'
  {
    if s == [] then 0 else if s[0] == 'e' || s[0] == 'E' then 0 else 1 + FirstExp(s[1..])
  }

  /** The first exponent marker is the one at `k` when none comes before it. */
  lemma FirstExpAt(s: string, k: nat)
    requires k < |s| && (s[k] == 'e' || s[k] == 'E')
    requires forall j | 0 <= j < k :: s[j] != 'e' && s[j] != 'E'
    ensures FirstExp(s) == k
  {
    var f := FirstExp(s);
    if f < k {
      assert false;
    } else if f > k {
      assert false;
    }
  }

  /** `digits [. digits]` or `. digits`, at least one digit in all: the
      integer formed by all digits and the number of fraction digits. */
  function Mantissa(m: string): Option<(nat, nat)>
  {
    var dot := IndexOf(m, '.');
    if dot == |m| then
      if m != [] && AllDigits(m) then Some((ParseDigits(m), 0)) else None
    else
      var ip, fp := m[..dot], m[dot + 1..];
      if AllDigits(ip) && AllDigits(fp) && |ip| + |fp| >= 1 then
        Some((ParseDigits(ip + fp), |fp|))
      else None
  }

  /** `[+-] digits`, at least one digit. */
  function Exponent(x: string): Option<int>
  {
    if x != [] && IsSign(x[0]) then
      var ds := x[1..];
      if ds != [] && AllDigits(ds) then
        Some(if x[0] == '-' then -(ParseDigits(ds) as int) else ParseDigits(ds))
      else None
    else if x != [] && AllDigits(x) then Some(ParseDigits(x))
    else None
  }

  /** An unsigned decimal literal: mantissa and optional exponent. */
  function DecimalValue(b: string): Option<real>
  {
    var k := FirstExp(b);
    match Mantissa(b[..k])
    case None => None
    case Some(mf) =>
      if k == |b| then Some(Scale(mf.0, -(mf.1 as int)))
      else match Exponent(b[k + 1..])
        case None => None
        case Some(x) => Some(Scale(mf.0, x - mf.1 as int))
  }

  /** An unsigned `float()` literal: `inf`, `infinity` or `nan` in any ASCII
      case, or a decimal literal. */
  function UnsignedValue(b: string): Option<Number>
  {
    var low := AsciiLowerAll(b);
    if low == "inf" || low == "infinity" then Some(PosInf)
    else if low == "nan" then Some(NaN)
    else match DecimalValue(b)
      case None => None
      case Some(v) => Some(FromReal(v))
  }

  function Negate(n: Number): Number
  {
    match n
    case Finite(r) => Finite(-r)
    case PosInf => NegInf
    case NegInf => PosInf
    case NaN => NaN
  }

  /** `float(t)` for text without whitespace or underscores; None where
      Python raises ValueError. */
  function PyFloat(t: string): (r: Option<Number>)
  {
    if t != [] && IsSign(t[0]) then
      match UnsignedValue(t[1..])
      case None => None
      case Some(n) => Some(if t[0] == '-' then Negate(n) else n)
    else UnsignedValue(t)
  }

  /** `re.sub(r"[dD]", "e", token)`. */
  function ReplaceD(t: string): string
  {
    seq(|t|, k requires 0 <= k < |t| => if t[k] == 'd' || t[k] == 'D' then 'e' else t[k])
  }

  /** `_to_float`: the value of a token, None where `float()` raises. */
  function ToFloat(token: string): Option<Number>
  {
    PyFloat(ReplaceD(token))
  }

  // ---------------------------------------------------------------------
  // Properties
  // ---------------------------------------------------------------------

  lemma ReplaceDAppend(a: string, b: string)
    ensures ReplaceD(a + b) == ReplaceD(a) + ReplaceD(b)
  {
  }

  /** A Fortran `D` exponent denotes the same value as the `e` form: the two
      spellings of a token convert alike. */
  lemma FortranExponent(m: string, x: string, marker: char)
    requires marker == 'd' || marker == 'D'
    ensures ToFloat(m + [marker] + x) == ToFloat(m + "e" + x)
  {
    var u, v := m + [marker] + x, m + "e" + x;
    assert ReplaceD(u) == ReplaceD(v) by {
      assert |u| == |v|;
      forall k | 0 <= k < |u|
        ensures ReplaceD(u)[k] == ReplaceD(v)[k]
      {
        if k != |m| {
          assert u[k] == v[k];
        }
      }
    }
  }

  /** `s[j..e]` around the character at `m`. */
  lemma SliceAround(s: string, j: nat, m: nat, e: nat)
    requires j <= m < e <= |s|
    ensures s[j..e] == s[j..m] + [s[m]] + s[m + 1..e]
  {
  }

  /** Digits, a dot and digits, at least one digit in all, are a mantissa. */
  lemma MantissaDotted(ip: string, fp: string)
    requires AllDigits(ip) && AllDigits(fp) && |ip| + |fp| >= 1
    ensures Mantissa(ip + ['.'] + fp).Some?
  {
    var t := ip + ['.'] + fp;
    assert t[|ip|] == '.';
    assert forall q | 0 <= q < |ip| :: t[q] == ip[q];
    assert IndexOf(t, '.') == |ip|;
    assert t[..|ip|] == ip && t[|ip| + 1..] == fp;
  }

  /** A non-empty digit run is a mantissa. */
  lemma MantissaDigits(t: string)
    requires t != [] && AllDigits(t)
    ensures Mantissa(t).Some?
  {
    assert IndexOf(t, '.') == |t|;
  }

  /** The scanner and `float()` agree on the mantissa: a digit run with an
      optional fraction, as `MantissaEnd` delimits it, is a valid mantissa. */
  lemma MantissaOfScanned(s: string, j: nat, m: nat)
    requires j <= |s| && MantissaEnd(s, j) == Some(m)
    ensures Mantissa(s[j..m]).Some?
    ensures forall k | j <= k < m :: IsDigit(s[k]) || s[k] == '.'
  {
    if j < |s| && IsDigit(s[j]) {
      var d := DigitRunEnd(s, j);
      if d < |s| && s[d] == '.' {
        SliceAround(s, j, d, m);
        MantissaDotted(s[j..d], s[d + 1..m]);
      } else {
        MantissaDigits(s[j..m]);
      }
    } else {
      SliceAround(s, j, j, m);
      assert s[j..j] == [];
      MantissaDotted([], s[j + 1..m]);
    }
  }

  /** The exponent group, as `ExponentEnd` delimits it, is either empty or a
      marker followed by a valid signed exponent. */
  lemma ExponentOfScanned(s: string, k: nat)
    requires k <= |s|
    ensures var e := ExponentEnd(s, k);
            e == k || (IsExpMark(s[k]) && Exponent(s[k + 1..e]).Some?
                       && forall q | k + 1 <= q < e :: IsDigit(s[q]) || IsSign(s[q]))
  {
    var e := ExponentEnd(s, k);
    if e != k {
      var d := if k + 1 < |s| && IsSign(s[k + 1]) then k + 2 else k + 1;
      var x := s[k + 1..e];
      if d == k + 2 {
        assert x[1..] == s[d..e];
      } else {
        assert x == s[d..e];
      }
    }
  }

  /** A valid mantissa made of digits and a dot is a decimal literal. */
  lemma DecimalNoExponent(mt: string)
    requires Mantissa(mt).Some?
    requires forall q | 0 <= q < |mt| :: IsDigit(mt[q]) || mt[q] == '.'
    ensures DecimalValue(mt).Some?
  {
    assert FirstExp(mt) == |mt|;
    assert mt[..|mt|] == mt;
  }

  /** A valid mantissa, an `e` or `E`, and a valid exponent make a decimal
      literal. */
  lemma DecimalWithExponent(mt: string, c: char, x: string)
    requires Mantissa(mt).Some? && Exponent(x).Some? && (c == 'e' || c == 'E')
    requires forall q | 0 <= q < |mt| :: IsDigit(mt[q]) || mt[q] == '.'
    ensures DecimalValue(mt + [c] + x).Some?
  {
    var b := mt + [c] + x;
    assert b[|mt|] == c;
    assert forall q | 0 <= q < |mt| :: b[q] == mt[q];
    assert FirstExp(b) == |mt|;
    assert b[..|mt|] == mt;
    assert b[|mt| + 1..] == x;
  }

  /** `D` rewriting leaves text without `d`/`D` alone. */
  lemma ReplaceDKeeps(t: string)
    requires forall q | 0 <= q < |t| :: t[q] != 'd' && t[q] != 'D'
    ensures ReplaceD(t) == t
  {
  }

  /** After `D` rewriting, a decimal body has its first `e` exactly where the
      scanner saw the exponent marker. */
  lemma DecimalBodyConverts(s: string, j: nat, e: nat)
    requires j <= |s| && MantissaEnd(s, j).Some?
    requires e == ExponentEnd(s, MantissaEnd(s, j).value)
    ensures DecimalValue(ReplaceD(s[j..e])).Some?
  {
    var m := MantissaEnd(s, j).value;
    MantissaOfScanned(s, j, m);
    ExponentOfScanned(s, m);
    var mt := s[j..m];
    if e == m {
      assert s[j..e] == mt;
      ReplaceDKeeps(mt);
      DecimalNoExponent(mt);
    } else {
      var x := s[m + 1..e];
      SliceAround(s, j, m, e);
      RewrittenWithExponent(mt, s[m], x);
    }
  }


  /** A mantissa, any exponent marker and a valid exponent make a decimal
      literal once `D` is rewritten. */
  lemma RewrittenWithExponent(mt: string, mark: char, x: string)
    requires Mantissa(mt).Some? && Exponent(x).Some? && IsExpMark(mark)
    requires forall q | 0 <= q < |mt| :: IsDigit(mt[q]) || mt[q] == '.'
    requires forall q | 0 <= q < |x| :: IsDigit(x[q]) || IsSign(x[q])
    ensures DecimalValue(ReplaceD(mt + [mark] + x)).Some?
  {
    ReplaceDKeeps(mt);
    ReplaceDKeeps(x);
    var c := if mark == 'E' then 'E' else 'e';
    ReplaceDAppend(mt + [mark], x);
    ReplaceDAppend(mt, [mark]);
    assert ReplaceD([mark]) == [c];
    assert ReplaceD(mt + [mark] + x) == mt + [c] + x;
    DecimalWithExponent(mt, c, x);
  }

  /** An unsigned body the scanner delimits (without the Unicode widening)
      is an unsigned `float()` literal once `D` exponents are rewritten. */
  lemma BodyConverts(s: string, j: nat, e: nat)
    requires j <= |s| && BodyEnd(s, j, false) == Some(e)
    ensures UnsignedValue(ReplaceD(s[j..e])).Some?
    ensures !IsSign(s[j])
  {
    var b := ReplaceD(s[j..e]);
    if WordAt(s, j, "inf", false) {
      var word := if e == j + 8 then "infinity" else "inf";
      forall q | 0 <= q < e - j
        ensures b[q] == s[j + q] && AsciiLower(b[q]) == word[q]
      {
        if q < 3 {
          assert CharMatches(s[j + q], "inf"[q], false);
        } else {
          assert CharMatches(s[j + 3 + (q - 3)], "inity"[q - 3], false);
        }
      }
      if e == j + 8 {
        assert AsciiLowerAll(b) == "infinity";
      } else {
        assert AsciiLowerAll(b) == "inf";
      }
    } else if WordAt(s, j, "nan", false) {
      assert e == j + 3;
      forall q | 0 <= q < 3
        ensures b[q] == s[j + q]
      {
        assert CharMatches(s[j + q], "nan"[q], false);
      }
      assert AsciiLowerAll(b) == "nan";
    } else {
      DecimalBodyConverts(s, j, e);
      assert s[j] == '.' || IsDigit(s[j]);
      assert b[0] == s[j];
      var low := AsciiLowerAll(b);
      assert low[0] == s[j];
    }
  }

  /** `D` rewriting keeps a first character other than `d`/`D` and
      rewrites the rest on its own. */
  lemma ReplaceDFirst(t: string)
    requires |t| > 0 && t[0] != 'd' && t[0] != 'D'
    ensures |ReplaceD(t)| == |t| && ReplaceD(t)[0] == t[0]
    ensures ReplaceD(t)[1..] == ReplaceD(t[1..])
  {
    assert t == [t[0]] + t[1..];
    ReplaceDAppend([t[0]], t[1..]);
  }

  /** `float()` of a signed text whose remainder is an unsigned literal. */
  lemma PyFloatSigned(b: string)
    requires |b| > 0 && IsSign(b[0]) && UnsignedValue(b[1..]).Some?
    ensures PyFloat(b).Some?
  {
  }

  /** `float()` of an unsigned literal. */
  lemma PyFloatUnsigned(b: string)
    requires |b| > 0 && !IsSign(b[0]) && UnsignedValue(b).Some?
    ensures PyFloat(b).Some?
  {
  }

  /** Every token a match yields (without the widening) converts. */
  lemma TokenConverts(s: string, i: nat, e: nat)
    requires i <= |s| && MatchAt(s, i, false) == Some(e)
    ensures ToFloat(s[i..e]).Some?
  {
    var t := s[i..e];
    if i < |s| && IsSign(s[i]) {
      BodyConverts(s, i + 1, e);
      assert t[0] == s[i] && t[1..] == s[i + 1..e];
      ReplaceDFirst(t);
      PyFloatSigned(ReplaceD(t));
    } else {
      BodyConverts(s, i, e);
      assert t[0] == s[i];
      ReplaceDFirst(t);
      PyFloatUnsigned(ReplaceD(t));
    }
  }

  lemma {:induction false} ScanFromConverts(s: string, i: nat)
    requires i <= |s|
    ensures forall t | t in ScanFrom(s, i, false) :: ToFloat(t).Some?
    decreases |s| - i
  {
    if i < |s| {
      var r := MatchAt(s, i, false);
      if r.Some? {
        ScanFromConverts(s, r.value);
        TokenConverts(s, i, r.value);
        assert ScanFrom(s, i, false) == [s[i..r.value]] + ScanFrom(s, r.value, false);
      } else {
        ScanFromConverts(s, i + 1);
        assert ScanFrom(s, i, false) == ScanFrom(s, i + 1, false);
      }
    }
  }

  /** Every token the ASCII-folding scanner yields converts with `float()`. */
  lemma ScannedTokensConvert(s: string)
    ensures forall t | t in Scan(s, false) :: ToFloat(t).Some?
  {
    ScanFromConverts(s, 0);
  }

  /** With the Unicode widening of `i`, as the regular expression engine
      applies it, the scanner yields a token `float()` rejects. */
  lemma WidenedScanYieldsUnconvertible()
    ensures Scan("\U{0131}nf", true) == ["\U{0131}nf"]
    ensures ToFloat("\U{0131}nf").None?
  {
    var s := "\U{0131}nf";
    assert WordAt(s, 0, "inf", true);
    assert MatchAt(s, 0, true) == Some(3);
    assert s[0..3] == s;
    assert ScanFrom(s, 3, true) == [];
    var b := ReplaceD(s);
    assert b == s;
    assert AsciiLowerAll(b)[0] == '\U{0131}';
    assert FirstExp(b) == 3;
    assert IndexOf(b, '.') == 3;
    assert !IsDigit(b[0]);
  }
}
