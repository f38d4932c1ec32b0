/** UTF-8 decoding as Python's `bytes.decode("utf-8")` performs it, in the
    strict mode (used by the exact comparator) and in the `errors="replace"`
    mode (used by the number scanners and the sandbox log capture). Both modes
    share one step function, so they agree on every well-formed prefix. */
module Utf8 {
  import opened Wrappers

  newtype byte = x: int | 0 <= x < 256

  /** U+FFFD, what `errors="replace"` substitutes for a malformed subpart. */
  const ReplacementChar: char := '\U{FFFD}'

  /** One decoding step at a position: a scalar value and the number of bytes
      it took, or the length of the maximal malformed subpart to skip. */
  datatype Step = Char(c: char, len: nat) | Invalid(skip: nat)

  /** Length of the well-formed sequence introduced by a lead byte, 0 when the
      byte cannot start one (continuation bytes, C0, C1, F5..FF). */
  function SeqLen(b0: byte): nat
  {
    if b0 < 0x80 then 1
    else if 0xC2 <= b0 <= 0xDF then 2
    else if 0xE0 <= b0 <= 0xEF then 3
    else if 0xF0 <= b0 <= 0xF4 then 4
    else 0
  }

  /** Bounds on the second byte; they exclude overlong forms, surrogates and
      values above U+10FFFF. Later continuation bytes are always 80..BF. */
  function SecondLo(b0: byte): int
  {
    if b0 == 0xE0 then 0xA0 else if b0 == 0xF0 then 0x90 else 0x80
  }

  function SecondHi(b0: byte): int
  {
    if b0 == 0xED then 0x9F else if b0 == 0xF4 then 0x8F else 0xBF
  }

  predicate ContOk(b0: byte, k: nat, b: byte)
  {
    if k == 1 then SecondLo(b0) <= b as int <= SecondHi(b0)
    else 0x80 <= b <= 0xBF
  }

  /** Number of acceptable continuation bytes following the lead at `i`,
      counting from the `k`-th, stopping at the first unacceptable one or at
      the end of the input. */
  function ValidConts(s: seq<byte>, i: nat, n: nat, k: nat): (v: nat)
    requires i < |s| && 1 <= k
    ensures v <= if n >= k then n - k else 0
    decreases n - k
  {
    if k >= n || i + k >= |s| || !ContOk(s[i], k, s[i + k]) then 0
    else 1 + ValidConts(s, i, n, k + 1)
  }

  function CodePoint2(b0: byte, b1: byte): int
  {
    (b0 as int - 0xC0) * 64 + (b1 as int - 0x80)
  }

  function CodePoint3(b0: byte, b1: byte, b2: byte): int
  {
    (b0 as int - 0xE0) * 4096 + (b1 as int - 0x80) * 64 + (b2 as int - 0x80)
  }

  function CodePoint4(b0: byte, b1: byte, b2: byte, b3: byte): int
  {
    (b0 as int - 0xF0) * 262144 + (b1 as int - 0x80) * 4096
    + (b2 as int - 0x80) * 64 + (b3 as int - 0x80)
  }

  predicate IsScalar(cp: int)
  {
    (0 <= cp < 0xD800) || (0xE000 <= cp <= 0x10FFFF)
  }

  /** The well-formed sequence at `i` decoded, or the malformed subpart. */
  function DecodeStep(s: seq<byte>, i: nat): (st: Step)
    requires i < |s|
    ensures st.Char? ==> 1 <= st.len <= 4 && i + st.len <= |s|
    ensures st.Invalid? ==> 1 <= st.skip && i + st.skip <= |s|
  {
    var b0 := s[i];
    var n := SeqLen(b0);
    if n == 1 then Char(b0 as int as char, 1)
    else if n == 0 then Invalid(1)
    else
      var v := ValidConts(s, i, n, 1);
      if v < n - 1 then Invalid(1 + v)
      else if n == 2 then
        var cp := CodePoint2(b0, s[i + 1]);
        assert 0x80 <= cp <= 0x7FF;
        Char(cp as char, 2)
      else if n == 3 then
        assert ContOk(b0, 2, s[i + 2]);
        var cp := CodePoint3(b0, s[i + 1], s[i + 2]);
        assert IsScalar(cp);
        Char(cp as char, 3)
      else
        assert ContOk(b0, 2, s[i + 2]) && ContOk(b0, 3, s[i + 3]);
        var cp := CodePoint4(b0, s[i + 1], s[i + 2], s[i + 3]);
        assert IsScalar(cp);
        Char(cp as char, 4)
  }

  /** Strict decoding: `None` exactly when Python raises UnicodeDecodeError. */
  function DecodeFrom(s: seq<byte>, i: nat): Option<string>
    requires i <= |s|
    decreases |s| - i
  {
    if i == |s| then Some("")
    else match DecodeStep(s, i)
      case Invalid(_) => None
      case Char(c, len) =>
        match DecodeFrom(s, i + len)
        case None => None
        case Some(rest) => Some([c] + rest)
  }

  function Decode(s: seq<byte>): Option<string>
  {
    DecodeFrom(s, 0)
  }

  /** Decoding with `errors="replace"`: every malformed subpart becomes one
      U+FFFD. */
  function DecodeReplaceFrom(s: seq<byte>, i: nat): string
    requires i <= |s|
    decreases |s| - i
  {
    if i == |s| then ""
    else match DecodeStep(s, i)
      case Invalid(skip) => [ReplacementChar] + DecodeReplaceFrom(s, i + skip)
      case Char(c, len) => [c] + DecodeReplaceFrom(s, i + len)
  }

  function DecodeReplace(s: seq<byte>): string
  {
    DecodeReplaceFrom(s, 0)
  }

  /** Replace-mode decoding yields at most one character per byte. */
  lemma {:induction false} DecodeReplaceShorter(s: seq<byte>, i: nat)
    requires i <= |s|
    ensures |DecodeReplaceFrom(s, i)| <= |s| - i
    decreases |s| - i
  {
    if i < |s| {
      var st := DecodeStep(s, i);
      var n := if st.Invalid? then st.skip else st.len;
      DecodeReplaceShorter(s, i + n);
      assert |DecodeReplaceFrom(s, i)| == 1 + |DecodeReplaceFrom(s, i + n)|;
    }
  }

  /** Whenever strict decoding succeeds, replace mode yields the same text. */
  lemma {:induction false} StrictAgreesWithReplace(s: seq<byte>, i: nat)
    requires i <= |s|
    requires DecodeFrom(s, i).Some?
    ensures DecodeReplaceFrom(s, i) == DecodeFrom(s, i).value
    decreases |s| - i
  {
    if i < |s| {
      var st := DecodeStep(s, i);
      StrictAgreesWithReplace(s, i + st.len);
    }
  }

  /** The UTF-8 encoding of one scalar value, the partner of `DecodeStep`. */
  function EncodeChar(c: char): (bs: seq<byte>)
    ensures 1 <= |bs| <= 4
  {
    var cp := c as int;
    if cp < 0x80 then [cp as byte]
    else if cp < 0x800 then [(0xC0 + cp / 64) as byte, (0x80 + cp % 64) as byte]
    else if cp < 0x10000 then
      [(0xE0 + cp / 4096) as byte, (0x80 + (cp / 64) % 64) as byte, (0x80 + cp % 64) as byte]
    else
      [(0xF0 + cp / 262144) as byte, (0x80 + (cp / 4096) % 64) as byte,
       (0x80 + (cp / 64) % 64) as byte, (0x80 + cp % 64) as byte]
  }

  function Encode(t: string): seq<byte>
  {
    if t == "" then [] else EncodeChar(t[0]) + Encode(t[1..])
  }

  lemma DecodeStepOfEncoded(c: char, rest: seq<byte>)
    ensures DecodeStep(EncodeChar(c) + rest, 0) == Char(c, |EncodeChar(c)|)
  {
    var cp := c as int;
    if cp < 0x80 {
    } else if cp < 0x800 {
      DecodeStepOfEncoded2(c, rest);
    } else if cp < 0x10000 {
      DecodeStepOfEncoded3(c, rest);
    } else {
      DecodeStepOfEncoded4(c, rest);
    }
  }

  lemma DecodeStepOfEncoded2(c: char, rest: seq<byte>)
    requires 0x80 <= c as int < 0x800
    ensures DecodeStep(EncodeChar(c) + rest, 0) == Char(c, 2)
  {
    var s := EncodeChar(c) + rest;
    var cp := c as int;
    assert s[0] as int == 0xC0 + cp / 64 && s[1] as int == 0x80 + cp % 64;
    assert SeqLen(s[0]) == 2;
    assert ValidConts(s, 0, 2, 2) == 0;
    assert ValidConts(s, 0, 2, 1) == 1;
    assert CodePoint2(s[0], s[1]) == cp;
  }

  lemma DecodeStepOfEncoded3(c: char, rest: seq<byte>)
    requires 0x800 <= c as int < 0x10000
    ensures DecodeStep(EncodeChar(c) + rest, 0) == Char(c, 3)
  {
    var s := EncodeChar(c) + rest;
    var cp := c as int;
    var hi, mid, lo := cp / 4096, (cp / 64) % 64, cp % 64;
    assert cp == hi * 4096 + mid * 64 + lo;
    assert s[0] as int == 0xE0 + hi && s[1] as int == 0x80 + mid && s[2] as int == 0x80 + lo;
    assert SeqLen(s[0]) == 3;
    assert ContOk(s[0], 1, s[1]);
    assert ValidConts(s, 0, 3, 3) == 0;
    assert ValidConts(s, 0, 3, 2) == 1;
    assert ValidConts(s, 0, 3, 1) == 2;
    assert CodePoint3(s[0], s[1], s[2]) == cp;
  }

  /** The base-64 digits of a supplementary-plane code point and the bounds
      UTF-8 places on them. */
  lemma Digits4(cp: int)
    requires 0x10000 <= cp <= 0x10FFFF
    ensures var top, hi, mid, lo := cp / 262144, (cp / 4096) % 64, (cp / 64) % 64, cp % 64;
      cp == top * 262144 + hi * 4096 + mid * 64 + lo
      && 0 <= top <= 4 && (top == 0 ==> hi >= 0x10) && (top == 4 ==> hi <= 0x0F)
  {
  }

  lemma DecodeStepOfEncoded4(c: char, rest: seq<byte>)
    requires 0x10000 <= c as int
    ensures DecodeStep(EncodeChar(c) + rest, 0) == Char(c, 4)
  {
    var s := EncodeChar(c) + rest;
    var cp := c as int;
    Digits4(cp);
    var top, hi, mid, lo := cp / 262144, (cp / 4096) % 64, (cp / 64) % 64, cp % 64;
    assert s[0] as int == 0xF0 + top && s[1] as int == 0x80 + hi;
    assert s[2] as int == 0x80 + mid && s[3] as int == 0x80 + lo;
    assert SeqLen(s[0]) == 4;
    assert ContOk(s[0], 1, s[1]);
    assert ValidConts(s, 0, 4, 4) == 0;
    assert ValidConts(s, 0, 4, 3) == 1;
    assert ValidConts(s, 0, 4, 2) == 2;
    assert ValidConts(s, 0, 4, 1) == 3;
    assert CodePoint4(s[0], s[1], s[2], s[3]) == cp;
  }

  /** A prefix leaves the decoding step at each position unchanged. */
  lemma DecodeStepShift(s: seq<byte>, p: seq<byte>, i: nat)
    requires i < |s|
    ensures DecodeStep(p + s, |p| + i) == DecodeStep(s, i)
  {
    var ps := p + s;
    assert ps[|p| + i] == s[i];
    var n := SeqLen(s[i]);
    if n >= 2 {
      ValidContsShift(s, p, i, n, 1);
      if ValidConts(s, i, n, 1) >= n - 1 {
        assert ps[|p| + i + 1] == s[i + 1];
        if n >= 3 {
          assert ps[|p| + i + 2] == s[i + 2];
        }
        if n >= 4 {
          assert ps[|p| + i + 3] == s[i + 3];
        }
      }
    }
  }

  lemma ValidContsShift(s: seq<byte>, p: seq<byte>, i: nat, n: nat, k: nat)
    requires i < |s| && 1 <= k
    ensures ValidConts(p + s, |p| + i, n, k) == ValidConts(s, i, n, k)
    decreases n - k
  {
    var ps := p + s;
    assert ps[|p| + i] == s[i];
    if k < n && i + k < |s| {
      assert ps[|p| + i + k] == s[i + k];
      ValidContsShift(s, p, i, n, k + 1);
    }
  }

  lemma DecodeFromShift(s: seq<byte>, p: seq<byte>, i: nat)
    requires i <= |s|
    ensures DecodeFrom(p + s, |p| + i) == DecodeFrom(s, i)
    decreases |s| - i
  {
    if i < |s| {
      DecodeStepShift(s, p, i);
      var st := DecodeStep(s, i);
      if st.Char? {
        DecodeFromShift(s, p, i + st.len);
      }
    }
  }

  /** Decoding undoes encoding: every text is the decoding of its UTF-8 form,
      which is therefore valid UTF-8. */
  lemma {:induction false} DecodeEncodeRoundTrip(t: string)
    ensures Decode(Encode(t)) == Some(t)
  {
    if t != "" {
      var e := EncodeChar(t[0]);
      var rest := Encode(t[1..]);
      DecodeEncodeRoundTrip(t[1..]);
      DecodeStepOfEncoded(t[0], rest);
      DecodeFromShift(rest, e, 0);
      assert DecodeFrom(e + rest, |e|) == Some(t[1..]);
      assert [t[0]] + t[1..] == t;
    }
  }
}
