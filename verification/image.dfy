/** The byte-similarity comparator (the "perceptual hash" method):
    identical payloads match at once; otherwise the share of agreeing
    positions, over the longer length, is the score. Equality of the two
    SHA-256 digests is modelled as equality of the payloads. */
module ImageComparator {
  import opened Utf8
  import opened Enums
  import opened Comparison
  import opened Floats

  const DefaultThreshold: real := 0.95

  /** The overlap is compared in chunks of this many bytes. */
  const ChunkSize: nat := 65536

  /** The number of positions in `[lo, hi)` where the payloads agree. */
  function Agreeing(a: seq<byte>, b: seq<byte>, lo: nat, hi: nat): (c: nat)
    requires lo <= hi <= |a| && hi <= |b|
    ensures c <= hi - lo
    decreases hi - lo
  {
    if lo == hi then 0 else Agreeing(a, b, lo, hi - 1) + (if a[hi - 1] == b[hi - 1] then 1 else 0)
  }

  /** The positions below `n` where the payloads agree. */
  function AgreePositions(a: seq<byte>, b: seq<byte>, n: nat): set<nat>
    requires n <= |a| && n <= |b|
  {
    set i: nat | i < n && a[i] == b[i]
  }

  /** The count is the number of agreeing positions. */
  lemma {:induction false} AgreeingCountsPositions(a: seq<byte>, b: seq<byte>, n: nat)
    requires n <= |a| && n <= |b|
    ensures Agreeing(a, b, 0, n) == |AgreePositions(a, b, n)|
  {
    if n > 0 {
      AgreeingCountsPositions(a, b, n - 1);
      if a[n - 1] == b[n - 1] {
        assert AgreePositions(a, b, n) == AgreePositions(a, b, n - 1) + {n - 1};
      } else {
        assert AgreePositions(a, b, n) == AgreePositions(a, b, n - 1);
      }
    }
  }

  /** Counts over adjacent ranges add up. */
  lemma {:induction false} AgreeingSplit(a: seq<byte>, b: seq<byte>, lo: nat, mid: nat, hi: nat)
    requires lo <= mid <= hi <= |a| && hi <= |b|
    ensures Agreeing(a, b, lo, mid) + Agreeing(a, b, mid, hi) == Agreeing(a, b, lo, hi)
    decreases hi - mid
  {
    if mid < hi {
      AgreeingSplit(a, b, lo, mid, hi - 1);
    }
  }

  /** Every position agrees exactly when the count is the full range. */
  lemma {:induction false} AgreeingFull(a: seq<byte>, b: seq<byte>, lo: nat, hi: nat)
    requires lo <= hi <= |a| && hi <= |b|
    ensures Agreeing(a, b, lo, hi) == hi - lo <==> forall i | lo <= i < hi :: a[i] == b[i]
    decreases hi - lo
  {
    if lo < hi {
      AgreeingFull(a, b, lo, hi - 1);
    }
  }

  /** The agreeing positions of the overlap; bytes beyond the shorter
      payload count as mismatches. */
  function BytesMatching(a: seq<byte>, b: seq<byte>): (m: nat)
    ensures m <= |a| && m <= |b|
  {
    Agreeing(a, b, 0, if |a| <= |b| then |a| else |b|)
  }

  function BytesTotal(a: seq<byte>, b: seq<byte>): (t: nat)
    ensures t >= |a| && t >= |b| && (t == |a| || t == |b|)
  {
    if |a| >= |b| then |a| else |b|
  }

  /** `_byte_similarity`: the overlap walked chunk by chunk, summing the
      agreeing positions of each chunk. */
  method ByteSimilarity(a: seq<byte>, b: seq<byte>) returns (total: nat, matching: nat)
    ensures total == BytesTotal(a, b)
    ensures matching == BytesMatching(a, b)
  {
    total := if |a| >= |b| then |a| else |b|;
    if total == 0 {
      return 0, 0;
    }
    var minLen := if |a| <= |b| then |a| else |b|;
    matching := 0;
    var offset := 0;
    while offset < minLen
      invariant offset < minLen + ChunkSize
      invariant matching == Agreeing(a, b, 0, if offset <= minLen then offset else minLen)
      decreases minLen + ChunkSize - offset
    {
      var end := if offset + ChunkSize <= minLen then offset + ChunkSize else minLen;
      var count := 0;
      var i := offset;
      while i < end
        invariant offset <= i <= end
        invariant count == Agreeing(a, b, offset, i)
      {
        count := count + (if a[i] == b[i] then 1 else 0);
        i := i + 1;
      }
      AgreeingSplit(a, b, 0, offset, end);
      matching := matching + count;
      offset := offset + ChunkSize;
    }
  }

  /** `matching / total`, or 0 when both payloads are empty. */
  function Similarity(a: seq<byte>, b: seq<byte>): (s: real)
    ensures 0.0 <= s <= 1.0
    ensures s == 1.0 <==> a == b && a != []
  {
    var total, matching := BytesTotal(a, b), BytesMatching(a, b);
    if total == 0 then 0.0
    else
      var s := matching as real / total as real;
      DivBetween(matching as real, total as real, 0.0, 1.0);
      assert s == 1.0 <==> a == b by {
        var n := if |a| <= |b| then |a| else |b|;
        AgreeingFull(a, b, 0, n);
        assert s == 1.0 <==> matching == total;
        if |a| == |b| {
          assert a == b <==> forall i | 0 <= i < n :: a[i] == b[i];
        }
      }
      s
  }

  /** `ImageComparator.compare`. */
  function Compare(expected: seq<byte>, actual: seq<byte>, threshold: real): (r: ComparisonResult)
    ensures r.usedMethod == PerceptualHash
    ensures r.details.ImageDetails?
    ensures r.details.sizeExpected == |expected| && r.details.sizeActual == |actual|
    ensures r.details.bytesTotal >= |expected| && r.details.bytesTotal >= |actual|
    ensures r.details.bytesTotal == |expected| || r.details.bytesTotal == |actual|
    ensures r.details.bytesMatching <= r.details.bytesTotal
    ensures r.score == r.details.similarity
    ensures 0.0 <= r.score <= 1.0
    ensures expected == actual ==>
              r.matched && r.score == 1.0
              && r.details.bytesMatching == r.details.bytesTotal == |expected|
    ensures expected != actual ==>
              r.details.bytesTotal > 0
              && r.score == r.details.bytesMatching as real / r.details.bytesTotal as real
              && (r.matched <==> r.score >= threshold)
              && r.details.bytesMatching == |AgreePositions(expected, actual,
                   if |expected| <= |actual| then |expected| else |actual|)|
              && r.score < 1.0
  {
    if expected == actual then
      ComparisonResult(true, PerceptualHash, 1.0,
                       ImageDetails(|expected|, |actual|, |expected|, |expected|, 1.0))
    else
      AgreeingCountsPositions(expected, actual,
                              if |expected| <= |actual| then |expected| else |actual|);
      var similarity := Similarity(expected, actual);
      ComparisonResult(similarity >= threshold, PerceptualHash, similarity,
                       ImageDetails(|expected|, |actual|, BytesTotal(expected, actual),
                                    BytesMatching(expected, actual), similarity))
  }

  /** Two empty payloads match with score 1. */
  lemma EmptyPayloadsMatch(threshold: real)
    ensures Compare([], [], threshold).matched
    ensures Compare([], [], threshold).score == 1.0
  {
  }

  /** A payload with one byte changed out of n, n >= 20, still matches at
      the default threshold. */
  lemma OneByteOffMatches(a: seq<byte>, i: nat, x: byte)
    requires |a| >= 20 && i < |a| && a[i] != x
    ensures Compare(a, a[i := x], DefaultThreshold).matched
  {
    var b, n := a[i := x], |a|;
    AgreeingSplit(a, b, 0, i, n);
    AgreeingSplit(a, b, i, i + 1, n);
    AgreeingFull(a, b, 0, i);
    AgreeingFull(a, b, i + 1, n);
    assert BytesMatching(a, b) == n - 1;
    var nr := n as real;
    DivBetween(nr - 1.0, nr, 0.95, 1.0);
  }
}
