/** The exact comparator: text mode when both payloads are valid UTF-8
    (every line right-stripped, trailing empty lines dropped, lines joined
    with `\n`), byte equality otherwise. */
module ExactComparator {
  import opened Utf8
  import opened Enums
  import opened Comparison

  /** Where `str.splitlines` ends a line; `\r\n` together is one boundary. */
  predicate IsLineBoundary(c: char)
  {
    c == '\n' || c == '\r' || c == '\U{000B}' || c == '\U{000C}'
    || c == '\U{001C}' || c == '\U{001D}' || c == '\U{001E}'
    || c == '\U{0085}' || c == '\U{2028}' || c == '\U{2029}'
  }

  /** What `str.rstrip()` removes: the characters `str.isspace` accepts. */
  predicate IsSpace(c: char)
  {
    ('\U{0009}' <= c <= '\U{000D}') || ('\U{001C}' <= c <= '\U{001F}') || c == ' '
    || c == '\U{0085}' || c == '\U{00A0}' || c == '\U{1680}'
    || ('\U{2000}' <= c <= '\U{200A}') || c == '\U{2028}' || c == '\U{2029}'
    || c == '\U{202F}' || c == '\U{205F}' || c == '\U{3000}'
  }

  predicate NoBoundary(s: string)
  {
    forall k | 0 <= k < |s| :: !IsLineBoundary(s[k])
  }

  predicate AllSpace(s: string)
  {
    forall k | 0 <= k < |s| :: IsSpace(s[k])
  }

  /** Index of the first line boundary, or the length when there is none. */
  function LineEnd(s: string): (j: nat)
    ensures j <= |s|
    ensures forall k | 0 <= k < j :: !IsLineBoundary(s[k])
    ensures j < |s| ==> IsLineBoundary(s[j])
  {
    if s == [] then 0
    else if IsLineBoundary(s[0]) then 0
    else 1 + LineEnd(s[1..])
  }

  /** Length of the boundary at `j`: two for `\r\n`, one otherwise. */
  function BoundaryLen(s: string, j: nat): nat
    requires j < |s|
  {
    if s[j] == '\r' && j + 1 < |s| && s[j + 1] == '\n' then 2 else 1
  }

  /** The text after a line ending at `j` and its boundary. */
  function RestFrom(s: string, j: nat): (r: string)
    requires j <= |s|
    ensures |r| < |s| || s == []
  {
    if j == |s| then [] else s[j + BoundaryLen(s, j)..]
  }

  /** The text after the first line and its boundary. */
  function RestAfterLine(s: string): (r: string)
    ensures |r| < |s| || s == []
  {
    RestFrom(s, LineEnd(s))
  }

  /** `str.splitlines()`: no final empty line for a trailing boundary. */
  function SplitLines(s: string): seq<string>
    decreases |s|
  {
    if s == [] then [] else [s[..LineEnd(s)]] + SplitLines(RestAfterLine(s))
  }

  /** `str.rstrip()`: the longest prefix not ending in whitespace. */
  function RStrip(line: string): (r: string)
    ensures r <= line
    ensures r == [] || !IsSpace(r[|r| - 1])
    ensures AllSpace(line[|r|..])
  {
    if line != [] && IsSpace(line[|line| - 1]) then
      var r := RStrip(line[..|line| - 1]);
      assert line[|r|..] == line[..|line| - 1][|r|..] + [line[|line| - 1]];
      r
    else line
  }

  function RStripAll(ls: seq<string>): seq<string>
  {
    seq(|ls|, i requires 0 <= i < |ls| => RStrip(ls[i]))
  }

  /** Pops empty lines off the end. */
  function DropTrailingEmpty(ls: seq<string>): (r: seq<string>)
    ensures r <= ls
    ensures r == [] || r[|r| - 1] != ""
    ensures forall i | |r| <= i < |ls| :: ls[i] == ""
  {
    if ls != [] && ls[|ls| - 1] == "" then DropTrailingEmpty(ls[..|ls| - 1]) else ls
  }

  /** `"\n".join(ls)`. */
  function JoinLines(ls: seq<string>): string
  {
    if ls == [] then "" else if |ls| == 1 then ls[0] else ls[0] + "\n" + JoinLines(ls[1..])
  }

  function StrippedLines(text: string): seq<string>
  {
    DropTrailingEmpty(RStripAll(SplitLines(text)))
  }

  /** `_normalize_text`. */
  function Normalize(text: string): string
  {
    JoinLines(StrippedLines(text))
  }

  /** `ExactComparator.compare`. */
  function Compare(expected: seq<byte>, actual: seq<byte>): (r: ComparisonResult)
    ensures r.usedMethod == Exact && r.details.ExactDetails?
    ensures r.details.byteLengthExpected == |expected|
    ensures r.details.byteLengthActual == |actual|
    ensures r.score == if r.matched then 1.0 else 0.0
    ensures Decode(expected).Some? && Decode(actual).Some? ==>
              r.details.mode == Text
              && (r.matched <==> Normalize(Decode(expected).value) == Normalize(Decode(actual).value))
    ensures Decode(expected).None? || Decode(actual).None? ==>
              r.details.mode == Binary && (r.matched <==> expected == actual)
  {
    var te, ta := Decode(expected), Decode(actual);
    var textMode := te.Some? && ta.Some?;
    var matched := if textMode then Normalize(te.value) == Normalize(ta.value) else expected == actual;
    ComparisonResult(matched, Exact, if matched then 1.0 else 0.0,
                     ExactDetails(|expected|, |actual|, if textMode then Text else Binary))
  }

  // ---------------------------------------------------------------------
  // The shape of normalised text
  // ---------------------------------------------------------------------

  lemma {:induction false} SplitLinesNoBoundary(s: string)
    ensures forall l | l in SplitLines(s) :: NoBoundary(l)
    decreases |s|
  {
    if s != [] {
      SplitLinesNoBoundary(RestAfterLine(s));
    }
  }

  lemma PrefixNoBoundary(a: string, b: string)
    requires a <= b && NoBoundary(b)
    ensures NoBoundary(a)
  {
    assert forall k | 0 <= k < |a| :: a[k] == b[k];
  }

  /** The lines of normalised text: none contains a line boundary or ends in
      whitespace, and the last one is not empty. */
  lemma StrippedLinesShape(text: string)
    ensures var d := StrippedLines(text);
            (forall i | 0 <= i < |d| :: NoBoundary(d[i]) && (d[i] == [] || !IsSpace(d[i][|d[i]| - 1])))
            && (d == [] || d[|d| - 1] != "")
  {
    var ls := SplitLines(text);
    var rs := RStripAll(ls);
    var d := StrippedLines(text);
    SplitLinesNoBoundary(text);
    forall i | 0 <= i < |d|
      ensures NoBoundary(d[i]) && (d[i] == [] || !IsSpace(d[i][|d[i]| - 1]))
    {
      assert d[i] == rs[i] == RStrip(ls[i]);
      assert ls[i] in ls;
      PrefixNoBoundary(d[i], ls[i]);
    }
  }

  lemma LineEndAfter(x: string, b: char, rest: string)
    requires NoBoundary(x) && IsLineBoundary(b)
    ensures LineEnd(x + [b] + rest) == |x|
  {
    var s := x + [b] + rest;
    assert s[|x|] == b;
    assert forall k | 0 <= k < |x| :: s[k] == x[k];
  }

  lemma LineEndNone(x: string)
    requires NoBoundary(x)
    ensures LineEnd(x) == |x|
  {
  }

  /** A line without boundaries, on its own, is one line. */
  lemma SplitLinesOne(x: string)
    requires x != [] && NoBoundary(x)
    ensures SplitLines(x) == [x]
  {
    LineEndNone(x);
    assert x[..|x|] == x;
  }

  /** A line, one boundary (not the `\r` of a `\r\n`), then the rest. */
  lemma SplitLinesAt(x: string, b: char, rest: string)
    requires NoBoundary(x) && IsLineBoundary(b)
    requires !(b == '\r' && rest != [] && rest[0] == '\n')
    ensures SplitLines(x + [b] + rest) == [x] + SplitLines(rest)
  {
    var s := x + [b] + rest;
    LineEndAfter(x, b, rest);
    assert s[..|x|] == x;
    assert BoundaryLen(s, |x|) == 1;
    assert s[|x| + 1..] == rest;
  }

  lemma SplitJoinCons(ls: seq<string>)
    requires |ls| >= 2 && NoBoundary(ls[0])
    ensures SplitLines(JoinLines(ls)) == [ls[0]] + SplitLines(JoinLines(ls[1..]))
  {
    assert JoinLines(ls) == ls[0] + ['\n'] + JoinLines(ls[1..]);
    SplitLinesAt(ls[0], '\n', JoinLines(ls[1..]));
  }

  /** Without its last line when that one is empty. */
  function DropLastEmpty(ls: seq<string>): seq<string>
  {
    if ls != [] && ls[|ls| - 1] == "" then ls[..|ls| - 1] else ls
  }

  lemma DropLastEmptyCons(x: string, tail: seq<string>)
    requires tail != []
    ensures DropLastEmpty([x] + tail) == [x] + DropLastEmpty(tail)
  {
    if tail[|tail| - 1] == "" {
      assert ([x] + tail)[..|tail|] == [x] + tail[..|tail| - 1];
    }
  }

  /** `"\n".join` and `splitlines` are inverse on lines without boundaries,
      except that a final empty line is lost. */
  lemma {:induction false} SplitJoin(ls: seq<string>)
    requires forall i | 0 <= i < |ls| :: NoBoundary(ls[i])
    ensures SplitLines(JoinLines(ls)) == DropLastEmpty(ls)
  {
    if |ls| == 1 {
      if ls[0] != "" {
        SplitLinesOne(ls[0]);
      }
    } else if |ls| >= 2 {
      SplitJoinCons(ls);
      SplitJoin(ls[1..]);
      DropLastEmptyCons(ls[0], ls[1..]);
      assert [ls[0]] + ls[1..] == ls;
    }
  }

  lemma DropSnocEmpty(ls: seq<string>)
    ensures DropTrailingEmpty(ls + [""]) == DropTrailingEmpty(ls)
  {
    assert (ls + [""])[..|ls|] == ls;
  }

  lemma DropRStripLastEmpty(ls: seq<string>)
    ensures DropTrailingEmpty(RStripAll(DropLastEmpty(ls))) == DropTrailingEmpty(RStripAll(ls))
  {
    if ls != [] && ls[|ls| - 1] == "" {
      var init := ls[..|ls| - 1];
      assert RStripAll(ls) == RStripAll(init) + [""] by {
        assert RStrip(ls[|ls| - 1]) == "";
      }
      DropSnocEmpty(RStripAll(init));
    }
  }

  /** The stripped lines of joined lines are the joined lines, stripped. */
  lemma StrippedOfJoin(ls: seq<string>)
    requires forall i | 0 <= i < |ls| :: NoBoundary(ls[i])
    ensures StrippedLines(JoinLines(ls)) == DropTrailingEmpty(RStripAll(ls))
  {
    SplitJoin(ls);
    DropRStripLastEmpty(ls);
  }

  lemma RStripOfStripped(r: string)
    requires r == [] || !IsSpace(r[|r| - 1])
    ensures RStrip(r) == r
  {
  }

  /** Normalisation is idempotent: normalised text is its own normal form. */
  lemma NormalizeIdempotent(text: string)
    ensures Normalize(Normalize(text)) == Normalize(text)
  {
    var d := StrippedLines(text);
    StrippedLinesShape(text);
    StrippedOfJoin(d);
    assert RStripAll(d) == d by {
      forall i | 0 <= i < |d|
        ensures RStripAll(d)[i] == d[i]
      {
        RStripOfStripped(d[i]);
      }
    }
  }

  // ---------------------------------------------------------------------
  // Trailing whitespace never matters
  // ---------------------------------------------------------------------

  /** Prepending a line to the stripped lines, as `DropTrailingEmpty` sees it. */
  function ConsLine(x: string, d: seq<string>): seq<string>
  {
    if d == [] && x == "" then [] else [x] + d
  }

  lemma {:induction false} DropCons(x: string, ls: seq<string>)
    ensures DropTrailingEmpty([x] + ls) == ConsLine(x, DropTrailingEmpty(ls))
    decreases |ls|
  {
    if ls != [] && ls[|ls| - 1] == "" {
      var init := ls[..|ls| - 1];
      assert ([x] + ls)[..|ls|] == [x] + init;
      DropCons(x, init);
    }
  }

  lemma RStripAllCons(x: string, ls: seq<string>)
    ensures RStripAll([x] + ls) == [RStrip(x)] + RStripAll(ls)
  {
    var a, b := RStripAll([x] + ls), [RStrip(x)] + RStripAll(ls);
    assert |a| == |b|;
    forall i | 0 <= i < |a|
      ensures a[i] == b[i]
    {
      if i > 0 {
        assert ([x] + ls)[i] == ls[i - 1];
      }
    }
  }

  lemma StrippedUnfold(s: string)
    requires s != []
    ensures StrippedLines(s) == ConsLine(RStrip(s[..LineEnd(s)]), StrippedLines(RestAfterLine(s)))
  {
    var line, rest := s[..LineEnd(s)], RestAfterLine(s);
    assert SplitLines(s) == [line] + SplitLines(rest);
    RStripAllCons(line, SplitLines(rest));
    DropCons(RStrip(line), RStripAll(SplitLines(rest)));
  }

  /** Appending a whitespace character to text without boundaries. */
  lemma StrippedIgnoresSpaceOneLine(t: string, c: char)
    requires IsSpace(c) && NoBoundary(t)
    ensures StrippedLines(t + [c]) == StrippedLines(t)
  {
    var u := t + [c];
    if IsLineBoundary(c) {
      SplitLinesAt(t, c, []);
      assert u == t + [c] + [];
      if t == [] {
        assert RStripAll([""]) == [""];
        DropSnocEmpty([]);
      } else {
        SplitLinesOne(t);
        assert SplitLines(u) == SplitLines(t);
      }
    } else {
      SplitLinesOne(u);
      assert u[..|u| - 1] == t;
      assert RStrip(u) == RStrip(t);
      assert RStripAll([u]) == RStripAll([t]) by {
        assert RStripAll([u])[0] == RStripAll([t])[0];
      }
      if t == [] {
        assert RStripAll([u]) == [""];
        DropSnocEmpty([]);
      } else {
        SplitLinesOne(t);
      }
    }
  }

  lemma LineEndAppend(t: string, c: char)
    requires LineEnd(t) < |t|
    ensures LineEnd(t + [c]) == LineEnd(t)
  {
    var u, j := t + [c], LineEnd(t);
    assert u[j] == t[j];
    assert forall k | 0 <= k < j :: u[k] == t[k];
  }

  lemma BoundaryLenAppend(t: string, c: char, j: nat)
    requires j < |t| && !(t[j] == '\r' && j + 1 == |t| && c == '\n')
    ensures BoundaryLen(t + [c], j) == BoundaryLen(t, j)
  {
    var u := t + [c];
    assert u[j] == t[j];
    if j + 1 < |t| {
      assert u[j + 1] == t[j + 1];
    }
  }

  lemma RestFromAppend(t: string, c: char, j: nat)
    requires j < |t|
    ensures RestFrom(t + [c], j) == RestFrom(t, j) + [c]
            || (RestFrom(t + [c], j) == [] && RestFrom(t, j) == [])
  {
    var u := t + [c];
    if t[j] == '\r' && j + 1 == |t| && c == '\n' {
      assert BoundaryLen(u, j) == 2;
    } else {
      BoundaryLenAppend(t, c, j);
      var len := BoundaryLen(t, j);
      assert u[j + len..] == t[j + len..] + [c];
    }
  }

  /** Appending a character after the first boundary leaves the first line
      alone and extends the rest, except when it completes a `\r\n`. */
  lemma RestAfterAppend(t: string, c: char)
    requires LineEnd(t) < |t|
    ensures LineEnd(t + [c]) == LineEnd(t)
    ensures (t + [c])[..LineEnd(t)] == t[..LineEnd(t)]
    ensures RestAfterLine(t + [c]) == RestAfterLine(t) + [c]
            || (RestAfterLine(t + [c]) == [] && RestAfterLine(t) == [])
  {
    LineEndAppend(t, c);
    RestFromAppend(t, c, LineEnd(t));
  }

  /** Appending one whitespace character never changes the stripped lines. */
  lemma {:induction false} StrippedIgnoresSpace(t: string, c: char)
    requires IsSpace(c)
    ensures StrippedLines(t + [c]) == StrippedLines(t)
    decreases |t|
  {
    if LineEnd(t) == |t| {
      assert t[..LineEnd(t)] == t;
      StrippedIgnoresSpaceOneLine(t, c);
    } else {
      var u := t + [c];
      RestAfterAppend(t, c);
      StrippedUnfold(u);
      StrippedUnfold(t);
      if RestAfterLine(u) != [] || RestAfterLine(t) != [] {
        StrippedIgnoresSpace(RestAfterLine(t), c);
      }
    }
  }

  /** Trailing whitespace, trailing newlines included, never changes the
      stripped lines. */
  lemma {:induction false} StrippedIgnoresTrailingSpace(t: string, w: string)
    requires AllSpace(w)
    ensures StrippedLines(t + w) == StrippedLines(t)
    decreases |w|
  {
    if w == [] {
      assert t + w == t;
    } else {
      var w' := w[..|w| - 1];
      assert t + w == (t + w') + [w[|w| - 1]];
      StrippedIgnoresSpace(t + w', w[|w| - 1]);
      StrippedIgnoresTrailingSpace(t, w');
    }
  }

  /** Trailing whitespace, trailing newlines included, never changes the
      normal form. */
  lemma NormalizeIgnoresTrailingSpace(t: string, w: string)
    requires AllSpace(w)
    ensures Normalize(t + w) == Normalize(t)
  {
    StrippedIgnoresTrailingSpace(t, w);
  }

  lemma {:induction false} RStripIgnoresSpace(l: string, p: string)
    requires AllSpace(p)
    ensures RStrip(l + p) == RStrip(l)
    decreases |p|
  {
    if p != [] {
      var p' := p[..|p| - 1];
      assert (l + p)[..|l + p| - 1] == l + p';
      RStripIgnoresSpace(l, p');
    } else {
      assert l + p == l;
    }
  }

  function Pad(ls: seq<string>, ps: seq<string>): (r: seq<string>)
    requires |ps| == |ls|
  {
    seq(|ls|, i requires 0 <= i < |ls| => ls[i] + ps[i])
  }

  /** Whitespace at the end of any line does not change the normal form. */
  lemma NormalizeIgnoresLinePadding(ls: seq<string>, ps: seq<string>)
    requires |ps| == |ls|
    requires forall i | 0 <= i < |ls| :: NoBoundary(ls[i])
    requires forall i | 0 <= i < |ps| :: AllSpace(ps[i]) && NoBoundary(ps[i])
    ensures Normalize(JoinLines(Pad(ls, ps))) == Normalize(JoinLines(ls))
  {
    var padded := Pad(ls, ps);
    forall i | 0 <= i < |ls|
      ensures NoBoundary(padded[i]) && RStripAll(padded)[i] == RStripAll(ls)[i]
    {
      RStripIgnoresSpace(ls[i], ps[i]);
    }
    StrippedOfJoin(padded);
    StrippedOfJoin(ls);
    assert RStripAll(padded) == RStripAll(ls);
  }

  // ---------------------------------------------------------------------
  // The comparator
  // ---------------------------------------------------------------------

  /** Every payload matches itself, in either mode. */
  lemma CompareReflexive(b: seq<byte>)
    ensures Compare(b, b).matched && Compare(b, b).score == 1.0
  {
  }

  /** Two texts that differ only in trailing whitespace, encoded as UTF-8,
      are compared in text mode and match. */
  lemma CompareIgnoresTrailingWhitespace(t: string, w1: string, w2: string)
    requires AllSpace(w1) && AllSpace(w2)
    ensures Compare(Encode(t + w1), Encode(t + w2)).matched
    ensures Compare(Encode(t + w1), Encode(t + w2)).details.mode == Text
  {
    DecodeEncodeRoundTrip(t + w1);
    DecodeEncodeRoundTrip(t + w2);
    NormalizeIgnoresTrailingSpace(t, w1);
    NormalizeIgnoresTrailingSpace(t, w2);
  }

  /** Lines padded with trailing whitespace match the unpadded lines. */
  lemma CompareIgnoresLinePadding(ls: seq<string>, ps: seq<string>)
    requires |ps| == |ls|
    requires forall i | 0 <= i < |ls| :: NoBoundary(ls[i])
    requires forall i | 0 <= i < |ps| :: AllSpace(ps[i]) && NoBoundary(ps[i])
    ensures Compare(Encode(JoinLines(Pad(ls, ps))), Encode(JoinLines(ls))).matched
  {
    DecodeEncodeRoundTrip(JoinLines(Pad(ls, ps)));
    DecodeEncodeRoundTrip(JoinLines(ls));
    NormalizeIgnoresLinePadding(ls, ps);
  }
}
