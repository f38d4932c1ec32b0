/** The parts of `json.dumps(..., separators=(",", ":"))` the signed payload
    uses: strings escaped with `ensure_ascii` (the default), `true`/`false`,
    and the `repr` of a float holding a whole number of milliseconds. */
module Json {
  import opened Decimal

  predicate Printable(c: char) { 0x20 <= c as int <= 0x7e }

  /** One lower-case hexadecimal digit. */
  function HexDigit(d: nat): (c: char)
    requires d < 16
    ensures Printable(c) && c != '"' && c != '\\'
  {
    if d < 10 then ('0' as int + d) as char else ('a' as int + d - 10) as char
  }

  function HexDigitValue(c: char): nat
  {
    if '0' <= c <= '9' then c as int - '0' as int
    else if 'a' <= c <= 'f' then c as int - 'a' as int + 10
    else 0
  }

  /** `'{0:04x}'.format(n)`. */
  function Hex4(n: nat): (s: string)
    requires n < 0x10000
    ensures |s| == 4
    ensures forall k | 0 <= k < 4 :: Printable(s[k]) && s[k] != '"' && s[k] != '\\'
  {
    [HexDigit(n / 16 / 16 / 16), HexDigit(n / 16 / 16 % 16), HexDigit(n / 16 % 16), HexDigit(n % 16)]
  }

  /** The value of four hexadecimal digits. */
  function HexValue4(s: string): nat
    requires |s| == 4
  {
    HexDigitValue(s[0]) * 0x1000 + HexDigitValue(s[1]) * 0x100
    + HexDigitValue(s[2]) * 16 + HexDigitValue(s[3])
  }

  lemma HexDigitRoundTrip(d: nat)
    requires d < 16
    ensures HexDigitValue(HexDigit(d)) == d
  {
  }

  lemma Hex4RoundTrip(n: nat)
    requires n < 0x10000
    ensures HexValue4(Hex4(n)) == n
  {
    var a := n / 16;
    var b := a / 16;
    var c := b / 16;
    HexDigitRoundTrip(c);
    HexDigitRoundTrip(b % 16);
    HexDigitRoundTrip(a % 16);
    HexDigitRoundTrip(n % 16);
    assert n == 16 * a + n % 16 && a == 16 * b + a % 16 && b == 16 * c + b % 16;
  }

  /** `\u` followed by four hexadecimal digits. */
  function UEscape(n: nat): (e: string)
    requires n < 0x10000
    ensures |e| == 6 && e[0] == '\\' && e[1] == 'u' && e[2..6] == Hex4(n)
    ensures forall k | 0 <= k < |e| :: Printable(e[k])
  {
    ['\\', 'u'] + Hex4(n)
  }

  /** The characters with a two-character escape. */
  const SimpleEscapes: set<char> := {'"', '\\', '\n', '\r', '\t', 0x08 as char, 0x0c as char}

  /** The escape of one character under `ensure_ascii`: the two-character
      escapes for quote, backslash and the five named controls, the
      character itself when printable ASCII, `\uXXXX` for the rest of the
      Basic Multilingual Plane and a surrogate pair beyond it. */
  function EscapeChar(c: char): (e: string)
    ensures 1 <= |e| <= 12
    ensures forall k | 0 <= k < |e| :: Printable(e[k])
    ensures e[0] != '"'
    ensures |e| == 1 <==> Printable(c) && c != '"' && c != '\\'
    ensures |e| == 1 ==> e == [c]
  {
    var n := c as int;
    if c == '"' then ['\\', '"']
    else if c == '\\' then ['\\', '\\']
    else if c == '\n' then ['\\', 'n']
    else if c == '\r' then ['\\', 'r']
    else if c == '\t' then ['\\', 't']
    else if n == 0x08 then ['\\', 'b']
    else if n == 0x0c then ['\\', 'f']
    else if Printable(c) then [c]
    else if n < 0x10000 then UEscape(n)
    else
      var v := n - 0x10000;
      UEscape(0xd800 + v / 0x400) + UEscape(0xdc00 + v % 0x400)
  }

  /** How long the escape at the front of `w` is, read from its first
      characters. */
  function CodeLength(w: string): nat
  {
    if |w| == 0 then 0
    else if w[0] != '\\' then 1
    else if |w| < 2 || w[1] != 'u' then 2
    else if |w| >= 6 && 0xd800 <= HexValue4(w[2..6]) < 0xdc00 then 12
    else 6
  }

  /** A `\uXXXX` escape, followed by anything, is six characters long
      unless its digits are a high surrogate, and then twelve. */
  lemma CodeLengthOfU(n: nat, rest: string)
    requires n < 0x10000
    ensures CodeLength(UEscape(n) + rest) == if 0xd800 <= n < 0xdc00 then 12 else 6
  {
    var w := UEscape(n) + rest;
    assert w[2..6] == UEscape(n)[2..6];
    Hex4RoundTrip(n);
  }

  /** Escapes of at most two characters never start with `\u`. */
  lemma CodeLengthOfShort(c: char, rest: string)
    requires c as int < 0x10000 && (Printable(c) || c in SimpleEscapes)
    ensures CodeLength(EscapeChar(c) + rest) == |EscapeChar(c)|
  {
    var e := EscapeChar(c);
    var w := e + rest;
    if c in SimpleEscapes {
      assert |e| == 2 && e[0] == '\\' && e[1] != 'u';
      assert w[0] == e[0] && w[1] == e[1];
    } else {
      assert e == [c] && c != '\\';
      assert w[0] == c;
    }
  }

  lemma CodeLengthOfEscape(c: char, rest: string)
    ensures CodeLength(EscapeChar(c) + rest) == |EscapeChar(c)|
  {
    var n := c as int;
    if n >= 0x10000 {
      var v := n - 0x10000;
      var hi, lo := 0xd800 + v / 0x400, 0xdc00 + v % 0x400;
      assert EscapeChar(c) == UEscape(hi) + UEscape(lo);
      assert EscapeChar(c) + rest == UEscape(hi) + (UEscape(lo) + rest);
      CodeLengthOfU(hi, UEscape(lo) + rest);
    } else if Printable(c) || c in SimpleEscapes {
      CodeLengthOfShort(c, rest);
    } else {
      assert EscapeChar(c) == UEscape(n);
      CodeLengthOfU(n, rest);
    }
  }

  /** The character a single escape stands for. */
  function DecodeCode(w: string): (c: char)
  {
    if |w| == 1 then w[0]
    else if |w| == 2 then
      match w[1]
      case 'n' => '\n'
      case 'r' => '\r'
      case 't' => '\t'
      case 'b' => 0x08 as char
      case 'f' => 0x0c as char
      case _ => w[1]
    else if |w| == 6 then
      var v := HexValue4(w[2..6]);
      if v < 0xd800 || 0xe000 <= v < 0x110000 then v as char else ' '
    else if |w| == 12 then
      var hi, lo := HexValue4(w[2..6]), HexValue4(w[8..12]);
      if 0xd800 <= hi < 0xdc00 && 0xdc00 <= lo < 0xe000 then
        (0x10000 + (hi - 0xd800) * 0x400 + (lo - 0xdc00)) as char
      else ' '
    else ' '
  }

  lemma DecodeEscapeBmp(c: char)
    requires |EscapeChar(c)| == 6
    ensures DecodeCode(EscapeChar(c)) == c
  {
    var e, n := EscapeChar(c), c as int;
    assert n < 0x10000 && e == ['\\', 'u'] + Hex4(n);
    assert e[2..6] == Hex4(n);
    Hex4RoundTrip(n);
  }

  lemma DecodeEscapeAstral(c: char)
    requires |EscapeChar(c)| == 12
    ensures DecodeCode(EscapeChar(c)) == c
  {
    var n := c as int;
    var v := n - 0x10000;
    var hi, lo := 0xd800 + v / 0x400, 0xdc00 + v % 0x400;
    SurrogateSplit(v);
    var uh, ul := UEscape(hi), UEscape(lo);
    assert EscapeChar(c) == uh + ul;
    assert (uh + ul)[2..6] == uh[2..6] && (uh + ul)[8..12] == ul[2..6];
    Hex4RoundTrip(hi);
    Hex4RoundTrip(lo);
  }

  /** A code point past the Basic Multilingual Plane splits into a high
      and a low surrogate that together give it back. */
  lemma SurrogateSplit(v: int)
    requires 0 <= v < 0x100000
    ensures 0xd800 <= 0xd800 + v / 0x400 < 0xdc00 && 0xdc00 <= 0xdc00 + v % 0x400 < 0xe000
    ensures v / 0x400 * 0x400 + v % 0x400 == v
  {
  }

  /** Every escape reads back as the character it escapes. */
  lemma DecodeEscape(c: char)
    ensures DecodeCode(EscapeChar(c)) == c
  {
    var e := EscapeChar(c);
    if |e| == 6 {
      DecodeEscapeBmp(c);
    } else if |e| == 12 {
      DecodeEscapeAstral(c);
    }
  }

  /** One escape followed by anything determines the escaped character and
      what follows. */
  lemma EscapeCharPrefix(x: char, y: char, s: string, t: string)
    requires EscapeChar(x) + s == EscapeChar(y) + t
    ensures x == y && s == t
  {
    var ex, ey := EscapeChar(x), EscapeChar(y);
    CodeLengthOfEscape(x, s);
    CodeLengthOfEscape(y, t);
    assert ex == (ex + s)[..|ex|] && ey == (ey + t)[..|ey|];
    DecodeEscape(x);
    DecodeEscape(y);
    assert s == (ex + s)[|ex|..] && t == (ey + t)[|ey|..];
  }

  /** The escape of a string: each character's escape, in order. */
  function Escape(s: string): (e: string)
    ensures forall k | 0 <= k < |e| :: Printable(e[k])
    ensures |e| >= |s|
  {
    if s == [] then [] else EscapeChar(s[0]) + Escape(s[1..])
  }

  /** The JSON text of a string, quotes included. */
  function Quote(s: string): string
  {
    ['"'] + Escape(s) + ['"']
  }

  /** A non-empty escape followed by a closing quote starts with the first
      character's escape, never with a quote. */
  lemma EscapeFront(s: string, r: string)
    requires s != []
    ensures Escape(s) + ['"'] + r == EscapeChar(s[0]) + (Escape(s[1..]) + ['"'] + r)
    ensures (Escape(s) + ['"'] + r)[0] != '"'
  {
    var c, t := EscapeChar(s[0]), Escape(s[1..]);
    assert Escape(s) == c + t;
    assert c + t + ['"'] + r == c + (t + ['"'] + r);
    assert (c + (t + ['"'] + r))[0] == c[0];
  }

  /** Only the empty string escapes to nothing before the closing quote. */
  lemma EscapedEmpty(b: string, r1: string, r2: string)
    requires ['"'] + r1 == Escape(b) + ['"'] + r2
    ensures b == [] && r1 == r2
  {
    if b != [] {
      EscapeFront(b, r2);
      assert false;
    }
    assert r1 == (['"'] + r1)[1..] && r2 == (['"'] + r2)[1..];
  }

  /** An escaped string is read back unambiguously up to its closing
      quote: the escapes form a prefix-free code, none of whose words
      starts with a quote. */
  lemma {:induction false} EscapedDetermined(a: string, b: string, r1: string, r2: string)
    requires Escape(a) + ['"'] + r1 == Escape(b) + ['"'] + r2
    ensures a == b && r1 == r2
    decreases |a|
  {
    if a == [] {
      EscapedEmpty(b, r1, r2);
    } else if b == [] {
      EscapedEmpty(a, r2, r1);
    } else {
      EscapeFront(a, r1);
      EscapeFront(b, r2);
      EscapeCharPrefix(a[0], b[0], Escape(a[1..]) + ['"'] + r1, Escape(b[1..]) + ['"'] + r2);
      EscapedDetermined(a[1..], b[1..], r1, r2);
      assert a == [a[0]] + a[1..] && b == [b[0]] + b[1..];
    }
  }

  function BoolText(b: bool): string
  {
    if b then "true" else "false"
  }

  /** The fraction digits of `repr` for a whole number of milliseconds
      below a second: three digits with trailing zeros dropped, at least
      one kept. */
  function FracDigits(f: nat): (s: string)
    requires f < 1000
    ensures 1 <= |s| <= 3 && AllDigits(s)
    ensures ParseDigits(s) * (if |s| == 1 then 100 else if |s| == 2 then 10 else 1) == f
  {
    var d0, d1, d2 := DigitChar(f / 100), DigitChar(f / 10 % 10), DigitChar(f % 10);
    ThreeDigits(f);
    ParseDigitsUpTo3(d0, d1, d2);
    if f % 100 == 0 then [d0]
    else if f % 10 == 0 then [d0, d1]
    else [d0, d1, d2]
  }

  /** A number below 1000 from its decimal digits, with trailing zeros
      dropped. */
  lemma ThreeDigits(f: nat)
    requires f < 1000
    ensures f / 100 * 100 + f / 10 % 10 * 10 + f % 10 == f
    ensures f % 100 == 0 ==> f / 100 * 100 == f
    ensures f % 10 == 0 ==> (f / 100 * 10 + f / 10 % 10) * 10 == f
  {
  }

  /** The values of one, two and three digits. */
  lemma ParseDigitsUpTo3(a: char, b: char, c: char)
    requires IsDigit(a) && IsDigit(b) && IsDigit(c)
    ensures ParseDigits([a]) == DigitValue(a)
    ensures ParseDigits([a, b]) == DigitValue(a) * 10 + DigitValue(b)
    ensures ParseDigits([a, b, c]) == DigitValue(a) * 100 + DigitValue(b) * 10 + DigitValue(c)
  {
    assert [a, b, c][..2] == [a, b];
    assert [a, b][..1] == [a];
    assert [a][..0] == [];
  }

  /** `repr(m / 1000)` for a float holding a whole number of milliseconds,
      in positional notation. */
  function MillisRepr(m: nat): (s: string)
    ensures |s| >= 3 && IsDigit(s[0])
    ensures forall k | 0 <= k < |s| :: IsDigit(s[k]) || s[k] == '.'
  {
    NatToString(m / 1000) + (['.'] + FracDigits(m % 1000))
  }

  /** Two texts free of the stop characters, each followed by a stop
      character, are split apart unambiguously. */
  lemma SplitBefore(x: string, y: string, r1: string, r2: string, stops: set<char>)
    requires forall k | 0 <= k < |x| :: x[k] !in stops
    requires forall k | 0 <= k < |y| :: y[k] !in stops
    requires |r1| > 0 && r1[0] in stops && |r2| > 0 && r2[0] in stops
    requires x + r1 == y + r2
    ensures x == y && r1 == r2
  {
    var w := x + r1;
    assert w[|x|] == r1[0] && (y + r2)[|y|] == r2[0];
    assert forall i | 0 <= i < |x| :: w[i] == x[i];
    assert forall i | 0 <= i < |y| :: (y + r2)[i] == y[i];
    if |x| != |y| {
      assert false;
    }
    assert x == w[..|x|] && y == (y + r2)[..|y|];
    assert r1 == w[|x|..] && r2 == (y + r2)[|y|..];
  }

  /** Distinct millisecond counts have distinct representations. */
  lemma MillisReprInjective(a: nat, b: nat)
    requires MillisRepr(a) == MillisRepr(b)
    ensures a == b
  {
    MillisReprSplit(a, b);
    FracDigitsInjective(a % 1000, b % 1000);
    DivModDetermine(a, b, 1000);
  }

  /** Equal representations have equal whole parts and equal fraction
      digits. */
  lemma MillisReprSplit(a: nat, b: nat)
    requires MillisRepr(a) == MillisRepr(b)
    ensures a / 1000 == b / 1000 && FracDigits(a % 1000) == FracDigits(b % 1000)
  {
    var fa, fb := FracDigits(a % 1000), FracDigits(b % 1000);
    var na, nb := NatToString(a / 1000), NatToString(b / 1000);
    assert forall k | 0 <= k < |na| :: na[k] !in {'.'};
    assert forall k | 0 <= k < |nb| :: nb[k] !in {'.'};
    assert MillisRepr(a) == na + (['.'] + fa) && MillisRepr(b) == nb + (['.'] + fb);
    SplitBefore(na, nb, ['.'] + fa, ['.'] + fb, {'.'});
    NatToStringInjective(a / 1000, b / 1000);
    assert fa == (['.'] + fa)[1..] && fb == (['.'] + fb)[1..];
  }

  /** The fraction digits identify the milliseconds. */
  lemma FracDigitsInjective(f: nat, g: nat)
    requires f < 1000 && g < 1000 && FracDigits(f) == FracDigits(g)
    ensures f == g
  {
  }

  /** A number is fixed by its quotient and remainder. */
  lemma DivModDetermine(a: nat, b: nat, n: nat)
    requires n > 0 && a / n == b / n && a % n == b % n
    ensures a == b
  {
    assert a == a / n * n + a % n;
    assert b == b / n * n + b % n;
  }

  /** The three kinds of value the payload holds. */
  datatype Value = JString(s: string) | JBool(b: bool) | JMillis(m: nat)

  function ValueText(v: Value): (t: string)
    ensures |t| >= 1
  {
    match v
    case JString(s) => Quote(s)
    case JBool(b) => BoolText(b)
    case JMillis(m) => MillisRepr(m)
  }

  /** A compact member, `"key":value`. */
  function MemberText(m: (string, Value)): string
  {
    Quote(m.0) + [':'] + ValueText(m.1)
  }

  /** Members joined by `,`, the separator `json.dumps` is given. */
  function MembersText(ms: seq<(string, Value)>): string
  {
    if ms == [] then []
    else if |ms| == 1 then MemberText(ms[0])
    else MemberText(ms[0]) + [','] + MembersText(ms[1..])
  }

  /** A compact JSON object with its members in the given order. */
  function ObjectText(ms: seq<(string, Value)>): string
  {
    ['{'] + MembersText(ms) + ['}']
  }

  predicate IsStop(c: char) { c == ',' || c == '}' }

  /** The kind of a value shows in its first character. */
  lemma ValueFirstChar(v: Value)
    ensures v.JString? <==> ValueText(v)[0] == '"'
    ensures v.JBool? <==> ValueText(v)[0] in {'t', 'f'}
    ensures v.JBool? ==> (ValueText(v)[0] == 't' <==> v.b)
    ensures !IsStop(ValueText(v)[0])
  {
  }

  /** A quoted string followed by a stop character is read back
      unambiguously. */
  lemma QuotedDetermined(s1: string, s2: string, r1: string, r2: string)
    requires Quote(s1) + r1 == Quote(s2) + r2
    requires |r1| > 0 && IsStop(r1[0]) && |r2| > 0 && IsStop(r2[0])
    ensures s1 == s2 && r1 == r2
  {
    var w1, w2 := Escape(s1) + ['"'] + r1, Escape(s2) + ['"'] + r2;
    ConcatAssoc(['"'], Escape(s1), ['"']);
    ConcatAssoc(['"'], Escape(s1) + ['"'], r1);
    ConcatAssoc(['"'], Escape(s2), ['"']);
    ConcatAssoc(['"'], Escape(s2) + ['"'], r2);
    ConsCancel('"', w1, w2);
    EscapedDetermined(s1, s2, r1, r2);
  }

  /** A boolean literal followed by anything is read back unambiguously
      once its first letter is known. */
  lemma BoolDetermined(b1: bool, b2: bool, r1: string, r2: string)
    requires BoolText(b1) + r1 == BoolText(b2) + r2
    ensures b1 == b2 && r1 == r2
  {
    var t1, t2 := BoolText(b1), BoolText(b2);
    assert (t1 + r1)[0] == t1[0] && (t2 + r2)[0] == t2[0];
    assert b1 == b2;
    assert r1 == (t1 + r1)[|t1|..] && r2 == (t2 + r2)[|t2|..];
  }

  /** A millisecond count followed by a stop character is read back
      unambiguously. */
  lemma MillisDetermined(m1: nat, m2: nat, r1: string, r2: string)
    requires MillisRepr(m1) + r1 == MillisRepr(m2) + r2
    requires |r1| > 0 && IsStop(r1[0]) && |r2| > 0 && IsStop(r2[0])
    ensures m1 == m2 && r1 == r2
  {
    SplitBefore(MillisRepr(m1), MillisRepr(m2), r1, r2, {',', '}'});
    MillisReprInjective(m1, m2);
  }

  /** A value followed by `,` or `}` is read back unambiguously. */
  lemma ValueDetermined(v1: Value, v2: Value, r1: string, r2: string)
    requires ValueText(v1) + r1 == ValueText(v2) + r2
    requires |r1| > 0 && IsStop(r1[0]) && |r2| > 0 && IsStop(r2[0])
    ensures v1 == v2 && r1 == r2
  {
    var t1, t2 := ValueText(v1), ValueText(v2);
    assert (t1 + r1)[0] == t1[0] && (t2 + r2)[0] == t2[0];
    ValueFirstChar(v1);
    ValueFirstChar(v2);
    match v1
    case JString(s1) => QuotedDetermined(s1, v2.s, r1, r2);
    case JBool(b1) => BoolDetermined(b1, v2.b, r1, r2);
    case JMillis(m1) => MillisDetermined(m1, v2.m, r1, r2);
  }

  /** What follows a member inside an object, after its separator: `t`
      after the last member, the next members and the closing brace
      otherwise. */
  function Next(ms: seq<(string, Value)>, t: string): string
    requires ms != []
  {
    if |ms| == 1 then t else MembersText(ms[1..]) + ['}'] + t
  }

  /** The separator after a member: the closing brace after the last one. */
  function SepAfter(ms: seq<(string, Value)>): char
    requires ms != []
  {
    if |ms| == 1 then '}' else ','
  }

  lemma ConcatAssoc(a: string, b: string, c: string)
    ensures a + b + c == a + (b + c)
  {
  }

  lemma Regroup(k: string, v: string, tail: string, rest: string)
    ensures ['"'] + k + ['"'] + [':'] + v + tail + rest
            == ['"'] + (k + ['"'] + ([':'] + (v + (tail + rest))))
  {
  }

  lemma ConsCancel(c: char, x: string, y: string)
    requires [c] + x == [c] + y
    ensures x == y
  {
    assert x == ([c] + x)[1..];
  }

  /** A member list followed by the closing brace unfolds into its first
      key's escape, its first value and what follows. */
  lemma MembersUnfold(ms: seq<(string, Value)>, t: string)
    requires ms != []
    ensures MembersText(ms) + ['}'] + t
            == ['"'] + (Escape(ms[0].0)
                        + ['"'] + ([':'] + (ValueText(ms[0].1) + ([SepAfter(ms)] + Next(ms, t)))))
  {
    if |ms| == 1 {
      MembersUnfoldLast(ms, t);
    } else {
      MembersUnfoldMore(ms, t);
    }
  }

  lemma MembersUnfoldLast(ms: seq<(string, Value)>, t: string)
    requires |ms| == 1
    ensures MembersText(ms) + ['}'] + t
            == ['"'] + (Escape(ms[0].0) + ['"'] + ([':'] + (ValueText(ms[0].1) + (['}'] + t))))
  {
    var k, v := Escape(ms[0].0), ValueText(ms[0].1);
    assert MembersText(ms) == ['"'] + k + ['"'] + [':'] + v;
    Regroup(k, v, ['}'], t);
  }

  lemma MembersUnfoldMore(ms: seq<(string, Value)>, t: string)
    requires |ms| > 1
    ensures MembersText(ms) + ['}'] + t
            == ['"'] + (Escape(ms[0].0)
                        + ['"'] + ([':'] + (ValueText(ms[0].1) + ([','] + (MembersText(ms[1..]) + ['}'] + t)))))
  {
    var k, v := Escape(ms[0].0), ValueText(ms[0].1);
    var m, rest := MemberText(ms[0]), MembersText(ms[1..]);
    assert m == ['"'] + k + ['"'] + [':'] + v;
    assert MembersText(ms) == m + [','] + rest;
    MoreMembers(m, rest, t);
    Regroup(k, v, [','], rest + ['}'] + t);
  }

  lemma MoreMembers(m: string, rest: string, t: string)
    ensures m + [','] + rest + ['}'] + t == m + [','] + (rest + ['}'] + t)
  {
    var a := m + [','];
    ConcatAssoc(a + rest, ['}'], t);
    ConcatAssoc(a, rest, ['}'] + t);
    ConcatAssoc(rest, ['}'], t);
  }

  /** The members' text, followed by the closing brace and `t`, begins
      with a quote when there is a member and with the brace otherwise. */
  lemma MembersFirstChar(ms: seq<(string, Value)>, t: string)
    ensures (MembersText(ms) + ['}'] + t)[0] == (if ms == [] then '}' else '"')
  {
    if ms != [] {
      MembersUnfold(ms, t);
    }
  }

  /** Members followed by the closing brace are read back unambiguously:
      keys through their escapes, values through the character after them. */
  lemma {:induction false} MembersDetermined(ms1: seq<(string, Value)>, ms2: seq<(string, Value)>,
                                             t1: string, t2: string)
    requires MembersText(ms1) + ['}'] + t1 == MembersText(ms2) + ['}'] + t2
    ensures ms1 == ms2 && t1 == t2
    decreases |ms1|
  {
    MembersFirstChar(ms1, t1);
    MembersFirstChar(ms2, t2);
    if ms1 == [] {
      assert ms2 == [];
      assert [] + ['}'] + t1 == ['}'] + t1 && [] + ['}'] + t2 == ['}'] + t2;
      ConsCancel('}', t1, t2);
    } else {
      assert ms2 != [];
      FirstMemberDetermined(ms1, ms2, t1, t2);
      if |ms1| > 1 {
        assert SepAfter(ms1) == ',' && |ms2| > 1;
        assert Next(ms1, t1) == MembersText(ms1[1..]) + ['}'] + t1;
        assert Next(ms2, t2) == MembersText(ms2[1..]) + ['}'] + t2;
        MembersDetermined(ms1[1..], ms2[1..], t1, t2);
        assert ms1 == [ms1[0]] + ms1[1..] && ms2 == [ms2[0]] + ms2[1..];
      } else {
        assert SepAfter(ms1) == '}' && |ms2| == 1;
        assert ms1 == [ms1[0]] && ms2 == [ms2[0]];
      }
    }
  }

  /** The first member of a list is read back, and with it the separator
      after it and everything that follows. */
  lemma FirstMemberDetermined(ms1: seq<(string, Value)>, ms2: seq<(string, Value)>,
                              t1: string, t2: string)
    requires ms1 != [] && ms2 != []
    requires MembersText(ms1) + ['}'] + t1 == MembersText(ms2) + ['}'] + t2
    ensures ms1[0] == ms2[0] && SepAfter(ms1) == SepAfter(ms2) && Next(ms1, t1) == Next(ms2, t2)
  {
    MembersUnfold(ms1, t1);
    MembersUnfold(ms2, t2);
    var n1, n2 := Next(ms1, t1), Next(ms2, t2);
    var a1, a2 := [SepAfter(ms1)] + n1, [SepAfter(ms2)] + n2;
    var u1, u2 := [':'] + (ValueText(ms1[0].1) + a1), [':'] + (ValueText(ms2[0].1) + a2);
    ConsCancel('"', Escape(ms1[0].0) + ['"'] + u1, Escape(ms2[0].0) + ['"'] + u2);
    EscapedDetermined(ms1[0].0, ms2[0].0, u1, u2);
    ConsCancel(':', ValueText(ms1[0].1) + a1, ValueText(ms2[0].1) + a2);
    assert a1[0] == SepAfter(ms1) && a2[0] == SepAfter(ms2);
    ValueDetermined(ms1[0].1, ms2[0].1, a1, a2);
    assert SepAfter(ms1) == SepAfter(ms2) by {
      assert a1[0] == a2[0];
    }
    ConsCancel(SepAfter(ms1), n1, n2);
  }

  /** A compact object's text determines its members, keys and values, in
      order. */
  lemma ObjectTextInjective(ms1: seq<(string, Value)>, ms2: seq<(string, Value)>)
    requires ObjectText(ms1) == ObjectText(ms2)
    ensures ms1 == ms2
  {
    var m1, m2 := MembersText(ms1), MembersText(ms2);
    assert ObjectText(ms1) == ['{'] + (m1 + ['}'] + []);
    assert ObjectText(ms2) == ['{'] + (m2 + ['}'] + []);
    ConsCancel('{', m1 + ['}'] + [], m2 + ['}'] + []);
    MembersDetermined(ms1, ms2, [], []);
  }

  /** Python's ordering of strings: lexicographic by code point. */
  predicate StrLess(a: string, b: string)
  {
    if a == [] then b != []
    else if b == [] then false
    else if a[0] != b[0] then a[0] < b[0]
    else StrLess(a[1..], b[1..])
  }

  /** The order `sort_keys=True` emits members in. */
  predicate KeysSorted(ms: seq<(string, Value)>)
  {
    forall i | 0 <= i < |ms| - 1 :: StrLess(ms[i].0, ms[i + 1].0)
  }
}
