/** The pure helpers of the container sandbox: the image allowlist, output
    truncation and sanitising, the path-traversal filter, the environment
    blocklist, the archive size cap, tar member filtering and output-name
    cleaning. */
module Container {
  import opened Wrappers
  import opened Utf8

  // ---------------------------------------------------------------------
  // Image allowlist
  // ---------------------------------------------------------------------

  const PythonImage: string := "phiacta-verify-runner-python:latest"
  const RImage: string := "phiacta-verify-runner-r:latest"
  const JuliaImage: string := "phiacta-verify-runner-julia:latest"
  const Lean4Image: string := "phiacta-verify-runner-lean4:latest"
  const SymbolicImage: string := "phiacta-verify-runner-symbolic:latest"

  const AllowedImages: set<string> := {PythonImage, RImage, JuliaImage, Lean4Image, SymbolicImage}

  // ---------------------------------------------------------------------
  // Truncation
  // ---------------------------------------------------------------------

  const MaxOutputBytes: int := 64 * 1024

  /** The UTF-8 bytes of `"\n... [truncated at 64 KB]\n"`, appended after
      truncated output. */
  const TruncationMarker: seq<byte> :=
    [0x0A, 0x2E, 0x2E, 0x2E, 0x20, 0x5B, 0x74, 0x72, 0x75, 0x6E, 0x63, 0x61, 0x74,
     0x65, 0x64, 0x20, 0x61, 0x74, 0x20, 0x36, 0x34, 0x20, 0x4B, 0x42, 0x5D, 0x0A]

  /** `data[:limit]` with Python's reading of a negative stop (counted from
      the end). */
  function SlicePrefix(data: seq<byte>, limit: int): (r: seq<byte>)
    ensures r <= data
    ensures limit >= 0 ==> |r| == if limit <= |data| then limit else |data|
    ensures limit < 0 ==> |r| == if |data| + limit >= 0 then |data| + limit else 0
  {
    if limit >= 0 then (if limit <= |data| then data[..limit] else data)
    else if |data| + limit >= 0 then data[..|data| + limit] else []
  }

  /** `_truncate_bytes`: the data itself when it fits, else its first `limit`
      bytes followed by the marker. */
  function TruncateBytes(data: seq<byte>, limit: int): (r: seq<byte>)
    ensures |data| <= limit ==> r == data
    ensures |data| > limit ==> r == SlicePrefix(data, limit) + TruncationMarker
    ensures limit >= 0 ==> |r| <= limit + |TruncationMarker|
    ensures limit >= 0 && |data| > limit ==> r[..limit] == data[..limit]
  {
    if |data| <= limit then data else SlicePrefix(data, limit) + TruncationMarker
  }

  // ---------------------------------------------------------------------
  // Sanitising
  // ---------------------------------------------------------------------

  /** The characters `[\x00-\x08\x0b\x0c\x0e-\x1f\x7f]`: every ASCII control
      character except tab, newline and carriage return. */
  predicate IsControl(c: char)
  {
    var n := c as int;
    n <= 0x08 || n == 0x0b || n == 0x0c || (0x0e <= n <= 0x1f) || n == 0x7f
  }

  predicate IsAsciiLetter(c: char) { 'a' <= c <= 'z' || 'A' <= c <= 'Z' }

  predicate IsParamChar(c: char) { '0' <= c <= '9' || c == ';' }

  /** The characters an escape sequence `\x1b[ [0-9;]* [a-zA-Z]` is made of. */
  predicate InEscapeAlphabet(c: char)
  {
    c == '\U{001b}' || c == '[' || IsParamChar(c) || IsAsciiLetter(c)
  }

  function ParamRunEnd(s: string, i: nat): (j: nat)
    requires i <= |s|
    ensures i <= j <= |s|
    ensures forall k | i <= k < j :: IsParamChar(s[k])
    ensures j < |s| ==> !IsParamChar(s[j])
    decreases |s| - i
  {
    if i < |s| && IsParamChar(s[i]) then ParamRunEnd(s, i + 1) else i
  }

  /** The end of the escape sequence starting at `i`, if one does. */
  function EscapeEnd(s: string, i: nat): (r: Option<nat>)
    requires i <= |s|
    ensures r.Some? ==> i + 3 <= r.value <= |s|
    ensures r.Some? ==> forall k | i <= k < r.value :: InEscapeAlphabet(s[k])
  {
    if i + 1 < |s| && s[i] == '\U{001b}' && s[i + 1] == '[' then
      var j := ParamRunEnd(s, i + 2);
      if j < |s| && IsAsciiLetter(s[j]) then Some(j + 1) else None
    else None
  }

  /** `_ANSI_ESCAPE_RE.sub("", s[i..])`: scanning left to right, each escape
      sequence is removed and every other character kept. */
  function StripEscapes(s: string, i: nat): string
    requires i <= |s|
    decreases |s| - i
  {
    if i == |s| then []
    else match EscapeEnd(s, i)
      case Some(e) => StripEscapes(s, e)
      case None => [s[i]] + StripEscapes(s, i + 1)
  }

  /** `_CONTROL_CHAR_RE.sub("", s)`. */
  function StripControls(s: string): (r: string)
    ensures forall k | 0 <= k < |r| :: !IsControl(r[k])
  {
    if s == [] then []
    else (if IsControl(s[0]) then [] else [s[0]]) + StripControls(s[1..])
  }

  /** `_sanitize_output`. */
  function Sanitize(raw: string): (r: string)
    ensures forall k | 0 <= k < |r| :: !IsControl(r[k])
  {
    StripControls(StripEscapes(raw, 0))
  }

  /** `t` can be obtained from `s` by deleting characters. */
  predicate SubseqOf(t: string, s: string)
    decreases |s|
  {
    if t == [] then true
    else if s == [] then false
    else (t[0] == s[0] && SubseqOf(t[1..], s[1..])) || SubseqOf(t, s[1..])
  }

  lemma {:induction false} SubseqTransitive(a: string, b: string, c: string)
    requires SubseqOf(a, b) && SubseqOf(b, c)
    ensures SubseqOf(a, c)
    decreases |c|
  {
    if a != [] {
      if SubseqOf(b, c[1..]) {
        SubseqTransitive(a, b, c[1..]);
      } else if a[0] == b[0] && SubseqOf(a[1..], b[1..]) {
        SubseqTransitive(a[1..], b[1..], c[1..]);
      } else {
        SubseqTransitive(a, b[1..], c[1..]);
      }
    }
  }

  lemma {:induction false} SubseqShorter(t: string, s: string)
    requires SubseqOf(t, s)
    ensures |t| <= |s|
    decreases |s|
  {
    if t != [] {
      if SubseqOf(t, s[1..]) {
        SubseqShorter(t, s[1..]);
      } else {
        SubseqShorter(t[1..], s[1..]);
      }
    }
  }

  lemma {:induction false} SubseqOfLaterSuffix(t: string, s: string, i: nat, e: nat)
    requires i <= e <= |s| && SubseqOf(t, s[e..])
    ensures SubseqOf(t, s[i..])
    decreases e - i
  {
    if i < e {
      SubseqOfLaterSuffix(t, s, i + 1, e);
      assert s[i..][1..] == s[i + 1..];
    }
  }

  lemma {:induction false} StripEscapesSubseq(s: string, i: nat)
    requires i <= |s|
    ensures SubseqOf(StripEscapes(s, i), s[i..])
    decreases |s| - i
  {
    if i < |s| {
      assert s[i..][1..] == s[i + 1..];
      match EscapeEnd(s, i)
      case Some(e) =>
        StripEscapesSubseq(s, e);
        SubseqOfLaterSuffix(StripEscapes(s, e), s, i, e);
      case None =>
        StripEscapesSubseq(s, i + 1);
    }
  }

  lemma {:induction false} StripControlsSubseq(s: string)
    ensures SubseqOf(StripControls(s), s)
  {
    if s != [] {
      StripControlsSubseq(s[1..]);
      if !IsControl(s[0]) {
        assert ([s[0]] + StripControls(s[1..]))[1..] == StripControls(s[1..]);
      } else {
        assert StripControls(s) == StripControls(s[1..]);
      }
    }
  }

  /** Skipping a span of escape-alphabet characters loses no occurrence of
      a character outside that alphabet. */
  lemma SkipEscapeSpan(s: string, i: nat, e: nat, c: char)
    requires i <= e <= |s| && !InEscapeAlphabet(c)
    requires forall k | i <= k < e :: InEscapeAlphabet(s[k])
    ensures multiset(s[i..])[c] == multiset(s[e..])[c]
  {
    var span := s[i..e];
    assert s[i..] == span + s[e..];
    assert forall k | 0 <= k < |span| :: span[k] == s[i + k];
    assert c !in span;
  }

  /** Removing escape sequences keeps every character that cannot be part
      of one, as many times as it occurs. */
  lemma {:induction false} StripEscapesKeeps(s: string, i: nat, c: char)
    requires i <= |s| && !InEscapeAlphabet(c)
    ensures multiset(StripEscapes(s, i))[c] == multiset(s[i..])[c]
    decreases |s| - i
  {
    if i < |s| {
      match EscapeEnd(s, i)
      case Some(e) =>
        StripEscapesKeeps(s, e, c);
        SkipEscapeSpan(s, i, e, c);
      case None =>
        StripEscapesKeeps(s, i + 1, c);
        assert s[i..] == [s[i]] + s[i + 1..];
        assert StripEscapes(s, i) == [s[i]] + StripEscapes(s, i + 1);
    }
  }

  lemma {:induction false} StripControlsKeeps(s: string, c: char)
    requires !IsControl(c)
    ensures multiset(StripControls(s))[c] == multiset(s)[c]
  {
    if s != [] {
      assert s == [s[0]] + s[1..];
      StripControlsKeeps(s[1..], c);
    }
  }

  /** Sanitising keeps the order of the surviving characters and every
      newline, carriage return and tab. */
  lemma SanitizeKeepsLayout(raw: string, c: char)
    requires c == '\n' || c == '\r' || c == '\t'
    ensures SubseqOf(Sanitize(raw), raw)
    ensures multiset(Sanitize(raw))[c] == multiset(raw)[c]
  {
    var mid := StripEscapes(raw, 0);
    StripEscapesSubseq(raw, 0);
    StripControlsSubseq(mid);
    assert raw[0..] == raw;
    SubseqTransitive(Sanitize(raw), mid, raw);
    StripEscapesKeeps(raw, 0, c);
    StripControlsKeeps(mid, c);
  }

  lemma {:induction false} StripEscapesClean(s: string, i: nat)
    requires i <= |s|
    requires forall k | i <= k < |s| :: s[k] != '\U{001b}'
    ensures StripEscapes(s, i) == s[i..]
    decreases |s| - i
  {
    if i < |s| {
      StripEscapesClean(s, i + 1);
      assert s[i..] == [s[i]] + s[i + 1..];
    }
  }

  lemma {:induction false} StripControlsClean(s: string)
    requires forall k | 0 <= k < |s| :: !IsControl(s[k])
    ensures StripControls(s) == s
  {
    if s != [] {
      StripControlsClean(s[1..]);
      assert s == [s[0]] + s[1..];
    }
  }

  /** Sanitised text is left as it is: sanitising is idempotent. */
  lemma SanitizeIdempotent(raw: string)
    ensures Sanitize(Sanitize(raw)) == Sanitize(raw)
  {
    var t := Sanitize(raw);
    StripEscapesClean(t, 0);
    assert t[0..] == t;
    StripControlsClean(t);
  }

  // ---------------------------------------------------------------------
  // Path filter
  // ---------------------------------------------------------------------

  /** `s.split("/")`. */
  function SplitSlash(s: string): (parts: seq<string>)
    ensures |parts| >= 1
    decreases |s|
  {
    if s == [] then [""]
    else if s[0] == '/' then [""] + SplitSlash(s[1..])
    else
      var rest := SplitSlash(s[1..]);
      [[s[0]] + rest[0]] + rest[1..]
  }

  /** Absolute, or with a `..` segment. */
  predicate UnsafePath(p: string)
  {
    (|p| > 0 && p[0] == '/') || ".." in SplitSlash(p)
  }

  /** A `..` segment: two dots bounded by the ends of the path or slashes. */
  predicate DotDotAt(p: string, i: nat)
  {
    i + 2 <= |p| && p[i] == '.' && p[i + 1] == '.'
    && (i == 0 || p[i - 1] == '/') && (i + 2 == |p| || p[i + 2] == '/')
  }

  /** The first segment of `SplitSlash(s)` is the text up to the first slash. */
  lemma {:induction false} SplitSlashFirst(s: string)
    ensures var parts := SplitSlash(s);
      (forall k | 0 <= k < |parts[0]| :: parts[0][k] != '/')
      && parts[0] <= s
      && (|parts[0]| < |s| ==> s[|parts[0]|] == '/' && parts[1..] == SplitSlash(s[|parts[0]| + 1..]))
      && (|parts[0]| == |s| ==> |parts| == 1)
    decreases |s|
  {
    if s != [] && s[0] != '/' {
      var rest := SplitSlash(s[1..]);
      SplitSlashFirst(s[1..]);
      var n := |rest[0]|;
      if n < |s[1..]| {
        assert s[1..][n + 1..] == s[n + 2..];
      }
      assert SplitSlash(s)[0] == [s[0]] + rest[0];
      assert SplitSlash(s)[1..] == rest[1..];
    }
  }

  /** Within a first segment free of slashes, the only `..` segment is the
      whole segment. */
  lemma DotDotInFirst(p: string, n: nat, i: nat)
    requires n <= |p| && (n == |p| || p[n] == '/')
    requires forall k | 0 <= k < n :: p[k] != '/'
    requires i < n || (n == |p| && i <= n)
    ensures DotDotAt(p, i) <==> i == 0 && p[..n] == ".."
  {
    if DotDotAt(p, i) {
      assert i == 0;
      assert n == 2;
    }
    if i == 0 && p[..n] == ".." {
      assert p[0] == '.' && p[1] == '.';
    }
  }

  /** A `..` after the first slash is a `..` of the rest. */
  lemma DotDotAfterSlash(p: string, n: nat, j: nat)
    requires n < |p| && p[n] == '/'
    ensures DotDotAt(p, n + 1 + j) <==> DotDotAt(p[n + 1..], j)
  {
    var rest := p[n + 1..];
    if n + 1 + j + 2 <= |p| {
      assert p[n + 1 + j] == rest[j] && p[n + 1 + j + 1] == rest[j + 1];
      if j > 0 {
        assert p[n + 1 + j - 1] == rest[j - 1];
      }
      if n + 1 + j + 2 < |p| {
        assert p[n + 1 + j + 2] == rest[j + 2];
      }
    }
  }

  /** The split has a `..` segment exactly when the text has two dots
      bounded by slashes or the ends. */
  lemma {:induction false} DotDotSegment(p: string)
    ensures ".." in SplitSlash(p) <==> exists i :: DotDotAt(p, i)
    decreases |p|
  {
    var parts := SplitSlash(p);
    SplitSlashFirst(p);
    var n := |parts[0]|;
    assert parts[0] == p[..n];
    assert forall k | 0 <= k < n :: p[k] != '/' by {
      forall k | 0 <= k < n
        ensures p[k] != '/'
      {
        assert p[k] == parts[0][k];
      }
    }
    if n < |p| {
      var rest := p[n + 1..];
      DotDotSegment(rest);
      assert parts == [parts[0]] + SplitSlash(rest);
      if ".." in SplitSlash(rest) {
        var j :| DotDotAt(rest, j);
        DotDotAfterSlash(p, n, j);
      }
      if parts[0] == ".." {
        DotDotInFirst(p, n, 0);
      }
      if i: nat :| DotDotAt(p, i) {
        if i < n {
          DotDotInFirst(p, n, i);
        } else {
          assert p[n] == '/' && p[i] == '.';
          DotDotAfterSlash(p, n, i - n - 1);
        }
      }
    } else {
      assert p[..n] == p;
      if p == ".." {
        DotDotInFirst(p, n, 0);
      }
      if i: nat :| DotDotAt(p, i) {
        DotDotInFirst(p, n, i);
      }
    }
  }

  // ---------------------------------------------------------------------
  // Environment blocklist
  // ---------------------------------------------------------------------

  const BlockedEnvVars: set<string> := {
    "LD_PRELOAD", "LD_LIBRARY_PATH", "PYTHONSTARTUP", "PYTHONPATH",
    "PYTHONINSPECT", "PYTHONBREAKPOINT", "RUBYOPT", "PERL5OPT",
    "NODE_OPTIONS", "JAVA_TOOL_OPTIONS", "R_PROFILE", "R_PROFILE_USER",
    "R_ENVIRON", "R_ENVIRON_USER", "JULIA_LOAD_PATH", "JULIA_DEPOT_PATH",
    "BASH_ENV", "ENV", "CDPATH", "GLOBIGNORE", "PATH", "HOME"
  }

  function UpperChar(c: char): char
  {
    if 'a' <= c <= 'z' then (c as int - 32) as char else c
  }

  function LowerChar(c: char): char
  {
    if 'A' <= c <= 'Z' then (c as int + 32) as char else c
  }

  /** `str.upper()` on ASCII letters. */
  function Upper(s: string): (u: string)
    ensures |u| == |s|
    ensures forall k | 0 <= k < |s| :: u[k] == UpperChar(s[k])
  {
    seq(|s|, k requires 0 <= k < |s| => UpperChar(s[k]))
  }

  function Lower(s: string): (l: string)
    ensures |l| == |s|
    ensures forall k | 0 <= k < |s| :: l[k] == LowerChar(s[k])
  {
    seq(|s|, k requires 0 <= k < |s| => LowerChar(s[k]))
  }

  /** The environment filter: an entry is dropped exactly when its
      upper-cased key is blocked; the others keep key and value. */
  function FilterEnv(env: map<string, string>): (safe: map<string, string>)
    ensures forall k :: k in safe <==> k in env && Upper(k) !in BlockedEnvVars
    ensures forall k | k in safe :: safe[k] == env[k]
  {
    map k | k in env && Upper(k) !in BlockedEnvVars :: env[k]
  }

  /** A name without lower-case letters is its own upper case, and so is
      the upper case of its lower case. */
  lemma UpperFixed(b: string)
    requires forall k | 0 <= k < |b| :: !('a' <= b[k] <= 'z')
    ensures Upper(b) == b && Upper(Lower(b)) == b
  {
  }

  lemma BlockedAreUpper(b: string)
    requires b in BlockedEnvVars
    ensures Upper(b) == b && Upper(Lower(b)) == b
  {
    UpperFixed(b);
  }

  /** No blocked name passes the filter, whatever the case of its letters,
      and filtering twice changes nothing. */
  lemma FilterEnvBlocks(env: map<string, string>, b: string)
    requires b in BlockedEnvVars
    ensures b !in FilterEnv(env) && Lower(b) !in FilterEnv(env)
    ensures FilterEnv(FilterEnv(env)) == FilterEnv(env)
  {
    BlockedAreUpper(b);
  }

  // ---------------------------------------------------------------------
  // Output archive
  // ---------------------------------------------------------------------

  const MaxOutputFilesBytes: nat := 32 * 1024 * 1024

  function Concat(chunks: seq<seq<byte>>): seq<byte>
  {
    if chunks == [] then [] else Concat(chunks[..|chunks| - 1]) + chunks[|chunks| - 1]
  }

  /** The number of leading chunks whose running total stays within the cap:
      collection stops before the first chunk that would overflow it. */
  function KeptChunks(chunks: seq<seq<byte>>): (k: nat)
    ensures k <= |chunks|
    ensures |Concat(chunks[..k])| <= MaxOutputFilesBytes
    ensures k < |chunks| ==> |Concat(chunks[..k + 1])| > MaxOutputFilesBytes
  {
    KeptFrom(chunks, 0)
  }

  function KeptFrom(chunks: seq<seq<byte>>, k: nat): (r: nat)
    requires k <= |chunks| && |Concat(chunks[..k])| <= MaxOutputFilesBytes
    ensures k <= r <= |chunks|
    ensures |Concat(chunks[..r])| <= MaxOutputFilesBytes
    ensures r < |chunks| ==> |Concat(chunks[..r + 1])| > MaxOutputFilesBytes
    decreases |chunks| - k
  {
    if k < |chunks| && |Concat(chunks[..k + 1])| <= MaxOutputFilesBytes then KeptFrom(chunks, k + 1)
    else k
  }

  lemma ConcatSnoc(chunks: seq<seq<byte>>, k: nat)
    requires k < |chunks|
    ensures Concat(chunks[..k + 1]) == Concat(chunks[..k]) + chunks[k]
  {
    assert chunks[..k + 1][..k] == chunks[..k];
  }

  /** The collection loop: running total, stop at the first overflow. */
  method CollectArchive(chunks: seq<seq<byte>>) returns (archive: seq<byte>)
    ensures archive == Concat(chunks[..KeptChunks(chunks)])
    ensures |archive| <= MaxOutputFilesBytes
  {
    var collected: seq<byte> := [];
    var total := 0;
    var i := 0;
    while i < |chunks|
      invariant i <= |chunks|
      invariant collected == Concat(chunks[..i]) && total == |collected|
      invariant total <= MaxOutputFilesBytes
      invariant KeptFrom(chunks, i) == KeptChunks(chunks)
    {
      ConcatSnoc(chunks, i);
      total := total + |chunks[i]|;
      if total > MaxOutputFilesBytes {
        break;
      }
      collected := collected + chunks[i];
      i := i + 1;
    }
    archive := collected;
  }

  // ---------------------------------------------------------------------
  // Tar members and output names
  // ---------------------------------------------------------------------

  /** A tar member as read by `tarfile`; `isFile` is false for directories
      and links. */
  datatype Member = Member(name: string, isFile: bool, content: seq<byte>)

  /** An ordered dictionary of files: keys are distinct and kept in first
      insertion order, as in a Python dict. */
  type Files = seq<(string, seq<byte>)>

  predicate DistinctKeys(d: Files)
  {
    forall i, j | 0 <= i < j < |d| :: d[i].0 != d[j].0
  }

  predicate HasKey(d: Files, k: string)
  {
    exists i | 0 <= i < |d| :: d[i].0 == k
  }

  function KeyIndex(d: Files, k: string): (i: nat)
    requires HasKey(d, k)
    ensures i < |d| && d[i].0 == k
  {
    if d[0].0 == k then 0
    else
      assert HasKey(d[1..], k) by {
        var j :| 0 <= j < |d| && d[j].0 == k;
        assert d[1..][j - 1].0 == k;
      }
      1 + KeyIndex(d[1..], k)
  }

  /** `d[k] = v`. */
  function Put(d: Files, k: string, v: seq<byte>): (r: Files)
    requires DistinctKeys(d)
    ensures DistinctKeys(r)
    ensures HasKey(r, k)
    ensures forall k' :: HasKey(r, k') <==> HasKey(d, k') || k' == k
    ensures r[KeyIndex(r, k)].1 == v
  {
    if HasKey(d, k) then
      var r := d[KeyIndex(d, k) := (k, v)];
      assert forall k' | HasKey(d, k') :: HasKey(r, k') by {
        forall k' | HasKey(d, k')
          ensures HasKey(r, k')
        {
          var j :| 0 <= j < |d| && d[j].0 == k';
          assert r[j].0 == k';
        }
      }
      r
    else
      var r := d + [(k, v)];
      assert r[|d|].0 == k;
      assert forall k' | HasKey(d, k') :: HasKey(r, k') by {
        forall k' | HasKey(d, k')
          ensures HasKey(r, k')
        {
          var j :| 0 <= j < |d| && d[j].0 == k';
          assert r[j].0 == k';
        }
      }
      r
  }

  /** The filter on a member name: an absolute path or a `..` segment. */
  predicate SkippedMember(m: Member)
  {
    !m.isFile || UnsafePath(m.name)
  }

  /** `_extract_tar` over the members `tarfile` reads, in archive order:
      regular files with safe names, a later duplicate replacing the value. */
  function ExtractMembers(members: seq<Member>): (d: Files)
    ensures DistinctKeys(d)
    ensures forall k :: HasKey(d, k) <==>
              exists i | 0 <= i < |members| :: members[i].name == k && !SkippedMember(members[i])
    decreases |members|
  {
    if members == [] then []
    else
      var last := members[|members| - 1];
      var d := ExtractMembers(members[..|members| - 1]);
      assert forall i | 0 <= i < |members| - 1 :: members[..|members| - 1][i] == members[i];
      if SkippedMember(last) then d else Put(d, last.name, last.content)
  }

  /** In a dictionary with distinct keys, a key sits at one index only. */
  lemma KeyIndexUnique(d: Files, k: string, j: nat)
    requires DistinctKeys(d) && j < |d| && d[j].0 == k
    ensures HasKey(d, k) && KeyIndex(d, k) == j
  {
  }

  /** Storing under one name leaves the content under every other name. */
  lemma PutKeeps(d: Files, k: string, v: seq<byte>, k': string)
    requires DistinctKeys(d) && HasKey(d, k') && k' != k
    ensures HasKey(Put(d, k, v), k')
    ensures Put(d, k, v)[KeyIndex(Put(d, k, v), k')].1 == d[KeyIndex(d, k')].1
  {
    var r, j := Put(d, k, v), KeyIndex(d, k');
    if HasKey(d, k) {
      assert r == d[KeyIndex(d, k) := (k, v)];
    } else {
      assert r == d + [(k, v)];
    }
    assert r[j] == d[j];
    KeyIndexUnique(r, k', j);
  }

  /** `result[member.name] = ...` in archive order: a kept name holds the
      content of the last regular, safe member of that name. */
  lemma {:induction false} ExtractLastWins(members: seq<Member>, i: nat)
    requires i < |members| && !SkippedMember(members[i])
    requires forall j | i < j < |members| ::
               members[j].name != members[i].name || SkippedMember(members[j])
    ensures HasKey(ExtractMembers(members), members[i].name)
    ensures var d := ExtractMembers(members);
      d[KeyIndex(d, members[i].name)].1 == members[i].content
  {
    var n, k := |members|, members[i].name;
    var init, last := members[..n - 1], members[n - 1];
    var d0 := ExtractMembers(init);
    assert forall j | 0 <= j < n - 1 :: init[j] == members[j];
    if i < n - 1 {
      ExtractLastWins(init, i);
      if !SkippedMember(last) {
        assert last.name != k;
        PutKeeps(d0, last.name, last.content, k);
      }
    }
  }

  /** Every extracted name is relative and free of `..` segments. */
  lemma ExtractedNamesSafe(members: seq<Member>, k: string)
    requires HasKey(ExtractMembers(members), k)
    ensures !UnsafePath(k)
  {
  }

  /** `_make_tar` at the level of members: one regular file per entry, in
      order (string content is UTF-8 encoded before it gets here). */
  function MakeTar(files: Files): (members: seq<Member>)
    ensures |members| == |files|
    ensures forall i | 0 <= i < |files| ::
              members[i] == Member(files[i].0, true, files[i].1)
  {
    seq(|files|, i requires 0 <= i < |files| => Member(files[i].0, true, files[i].1))
  }

  /** Reading back what `_make_tar` wrote gives the same files, as long as
      no name is absolute or climbs out with `..`. */
  lemma {:induction false} ExtractMakeTar(files: Files)
    requires DistinctKeys(files)
    requires forall i | 0 <= i < |files| :: !UnsafePath(files[i].0)
    ensures ExtractMembers(MakeTar(files)) == files
  {
    if files != [] {
      var n := |files|;
      var init := files[..n - 1];
      assert MakeTar(files)[..n - 1] == MakeTar(init);
      ExtractMakeTar(init);
      assert !HasKey(init, files[n - 1].0);
    }
  }

  const OutputPrefix: string := "output/"

  /** One leading `output/` removed, if present. */
  function StripPrefix(name: string): (c: string)
    ensures OutputPrefix <= name ==> OutputPrefix + c == name
    ensures !(OutputPrefix <= name) ==> c == name
  {
    if OutputPrefix <= name then name[|OutputPrefix|..] else name
  }

  /** Some file's name cleans to `k`. */
  predicate CleansTo(files: Files, k: string)
  {
    exists i | 0 <= i < |files| :: StripPrefix(files[i].0) == k
  }

  /** The names a list cleans to are those of all but its last file, and
      the last file's. */
  lemma CleansToSnoc(files: Files)
    requires files != []
    ensures forall k :: CleansTo(files, k) <==>
              CleansTo(files[..|files| - 1], k) || StripPrefix(files[|files| - 1].0) == k
  {
    var init := files[..|files| - 1];
    forall k
      ensures CleansTo(files, k) ==> CleansTo(init, k) || StripPrefix(files[|files| - 1].0) == k
    {
      if CleansTo(files, k) {
        var i :| 0 <= i < |files| && StripPrefix(files[i].0) == k;
        if i < |init| {
          assert init[i] == files[i];
        }
      }
    }
    forall k | CleansTo(init, k)
      ensures CleansTo(files, k)
    {
      var i :| 0 <= i < |init| && StripPrefix(init[i].0) == k;
      assert files[i] == init[i];
    }
  }

  /** The cleaning loop over the extracted files, in order: names lose one
      leading `output/`, and names that become empty are dropped. */
  function CleanNames(files: Files): (d: Files)
    ensures DistinctKeys(d)
    ensures forall k :: HasKey(d, k) <==> k != "" && CleansTo(files, k)
    decreases |files|
  {
    if files == [] then []
    else
      var last := files[|files| - 1];
      var d := CleanNames(files[..|files| - 1]);
      CleansToSnoc(files);
      var c := StripPrefix(last.0);
      if c == "" then d else Put(d, c, last.1)
  }

  /** Only one prefix is removed: `output/output/x` becomes `output/x`. */
  lemma StripPrefixOnce()
    ensures StripPrefix("output/output/x") == "output/x"
    ensures StripPrefix("output/") == ""
    ensures StripPrefix("x/output/y") == "x/output/y"
  {
    assert OutputPrefix <= "output/output/x";
    assert OutputPrefix <= "output/";
    assert "x/output/y"[0] != OutputPrefix[0];
  }
}
