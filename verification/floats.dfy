/** Python floats, idealised: a finite value is an exact real, next to the
    three special values. Rounding to the nearest double is not modelled,
    except that literals beyond the largest double become infinite. */
module Floats {

  datatype Number = Finite(r: real) | PosInf | NegInf | NaN
  {
    predicate IsInf() { PosInf? || NegInf? }
  }

  /** Python `==` on floats: NaN equals nothing, not even itself. */
  predicate FloatEq(a: Number, b: Number)
  {
    !a.NaN? && !b.NaN? && a == b
  }

  function Abs(x: real): (y: real)
    ensures y >= 0.0 && (y == x || y == -x)
  {
    if x < 0.0 then -x else x
  }

  function Max(a: real, b: real): (m: real)
    ensures m >= a && m >= b && (m == a || m == b)
  {
    if b > a then b else a
  }

  function Min(a: real, b: real): (m: real)
    ensures m <= a && m <= b && (m == a || m == b)
  {
    if b < a then b else a
  }

  /** Division by a positive number keeps the quotient between the bounds
      of the dividend, scaled. */
  lemma DivBetween(x: real, n: real, lo: real, hi: real)
    requires n > 0.0 && n * lo <= x <= n * hi
    ensures lo <= x / n <= hi
  {
    assert x / n - lo == (x - n * lo) / n;
    assert hi - x / n == (n * hi - x) / n;
  }

  /** `max(0.0, min(1.0, x))`. */
  function Clamp01(x: real): (y: real)
    ensures 0.0 <= y <= 1.0
    ensures 0.0 <= x <= 1.0 ==> y == x
    ensures x < 0.0 ==> y == 0.0
    ensures x > 1.0 ==> y == 1.0
  {
    Max(0.0, Min(1.0, x))
  }

  /** 2^1024 - 2^970: the smallest magnitude that rounds to infinity under
      round-half-to-even (halfway between the largest double and 2^1024). */
  const OverflowThreshold: real :=
    179769313486231580793728971405303415079934132710037826936173778980444968292764750946649017977587207096330286416692887910946555547851940402630657488671505820681908902000708383676273854845817711531764475730270069855571366959622842914819860834936475292719074168444365510704342711559699508093042880177904174497792.0

  /** The double a decimal literal of exact value `v` denotes, up to rounding. */
  function FromReal(v: real): (n: Number)
    ensures n.Finite? <==> -OverflowThreshold < v < OverflowThreshold
    ensures n.Finite? ==> n.r == v
    ensures n.PosInf? <==> v >= OverflowThreshold
    ensures n.NegInf? <==> v <= -OverflowThreshold
  {
    if v >= OverflowThreshold then PosInf
    else if v <= -OverflowThreshold then NegInf
    else Finite(v)
  }
}
