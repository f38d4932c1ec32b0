/** `ResultSigner`: the canonical payload of a result and its signature.
    The payload is the compact JSON of seven fields with sorted keys,
    encoded as UTF-8; every other field of the result is left out of it. */
module Signing {
  import opened Wrappers
  import opened Utf8
  import opened Enums
  import opened Ids
  import opened Json
  import opened Ed25519
  import opened Results

  /** A signer holds one key pair for all its signatures. */
  datatype ResultSigner = ResultSigner(key: KeyPair)

  /** The payload's keys in the order `sort_keys=True` writes them. */
  const PayloadKeys: seq<string> := ["claim_id", "code_hash", "created_at",
    "execution_time_seconds", "job_id", "passed", "verification_level"]

  /** The seven field values, in key order. */
  function PayloadValues(r: VerificationResult): (vs: seq<Value>)
    ensures |vs| == |PayloadKeys|
  {
    [JString(UuidString(r.claimId)), JString(r.codeHash), JString(r.createdAt),
     JMillis(r.executionMillis), JString(UuidString(r.jobId)), JBool(r.passed),
     JString(LevelValue(r.level))]
  }

  /** Pairs up keys and values. */
  function Zip<K, V>(ks: seq<K>, vs: seq<V>): (ms: seq<(K, V)>)
    requires |ks| == |vs|
    ensures |ms| == |ks| && forall i | 0 <= i < |ms| :: ms[i] == (ks[i], vs[i])
  {
    if ks == [] then [] else [(ks[0], vs[0])] + Zip(ks[1..], vs[1..])
  }

  /** The seven signed fields, as JSON values under their keys. */
  function PayloadFields(r: VerificationResult): (ms: seq<(string, Value)>)
    ensures |ms| == |PayloadKeys| && KeysSorted(ms)
    ensures forall i | 0 <= i < |ms| :: ms[i].0 == PayloadKeys[i]
  {
    PayloadKeysSorted();
    Zip(PayloadKeys, PayloadValues(r))
  }

  lemma PayloadKeysSorted()
    ensures forall i | 0 <= i < |PayloadKeys| - 1 :: StrLess(PayloadKeys[i], PayloadKeys[i + 1])
  {
    assert StrLess(PayloadKeys[0], PayloadKeys[1]);
    assert StrLess(PayloadKeys[1], PayloadKeys[2]);
    assert StrLess(PayloadKeys[2], PayloadKeys[3]);
    assert StrLess(PayloadKeys[3], PayloadKeys[4]);
    assert StrLess(PayloadKeys[4], PayloadKeys[5]);
    assert StrLess(PayloadKeys[5], PayloadKeys[6]);
  }

  /** Two results agree on everything the payload carries. */
  predicate SameSignedFields(a: VerificationResult, b: VerificationResult)
  {
    a.jobId == b.jobId && a.claimId == b.claimId && a.codeHash == b.codeHash
    && a.level == b.level && a.passed == b.passed
    && a.executionMillis == b.executionMillis && a.createdAt == b.createdAt
  }

  /** `canonical_payload`: the UTF-8 bytes of the compact, key-sorted JSON
      object of the seven fields. */
  function CanonicalPayload(r: VerificationResult): (p: seq<byte>)
    ensures Decode(p) == Some(ObjectText(PayloadFields(r)))
  {
    var text := ObjectText(PayloadFields(r));
    DecodeEncodeRoundTrip(text);
    Encode(text)
  }

  /** The seven field values are read back from their JSON values. */
  lemma ValuesDetermineResult(a: VerificationResult, b: VerificationResult)
    ensures PayloadValues(a) == PayloadValues(b) <==> SameSignedFields(a, b)
  {
    if PayloadValues(a) == PayloadValues(b) {
      var va, vb := PayloadValues(a), PayloadValues(b);
      assert va[0] == vb[0];
      assert UuidString(a.claimId) == UuidString(b.claimId);
      UuidStringInjective(a.claimId, b.claimId);
      assert va[4] == vb[4];
      UuidStringInjective(a.jobId, b.jobId);
      assert va[6] == vb[6];
      LevelValueInjective(a.level, b.level);
      assert va[1] == vb[1] && va[2] == vb[2] && va[3] == vb[3] && va[5] == vb[5];
    }
  }

  /** The fields agree exactly when the values under them agree. */
  lemma FieldsDetermineResult(a: VerificationResult, b: VerificationResult)
    ensures PayloadFields(a) == PayloadFields(b) <==> SameSignedFields(a, b)
  {
    ValuesDetermineResult(a, b);
    var va, vb := PayloadValues(a), PayloadValues(b);
    if PayloadFields(a) == PayloadFields(b) {
      assert forall i | 0 <= i < |va| :: va[i] == PayloadFields(a)[i].1;
      assert va == vb;
    }
  }

  /** The payload is a function of the seven fields alone, and it
      determines every one of them: two results have the same payload
      exactly when they agree on the signed fields. */
  lemma PayloadDeterminesFields(a: VerificationResult, b: VerificationResult)
    ensures CanonicalPayload(a) == CanonicalPayload(b) <==> SameSignedFields(a, b)
  {
    FieldsDetermineResult(a, b);
    var fa, fb := PayloadFields(a), PayloadFields(b);
    if CanonicalPayload(a) == CanonicalPayload(b) {
      assert ObjectText(fa) == ObjectText(fb);
      ObjectTextInjective(fa, fb);
    }
  }

  /** `sign`: the base64 text of the signature over the payload. */
  function SignResult(s: ResultSigner, r: VerificationResult): SignatureText
  {
    Base64(Sign(s.key, CanonicalPayload(r)))
  }

  /** `verify`: text that is not base64 raises, as the decoding happens
      outside the `try`; decodable text verifies or not. */
  function VerifyResult(s: ResultSigner, r: VerificationResult, text: SignatureText): (v: Result<bool>)
    ensures text.NotBase64? <==> v.Err?
    ensures v.Err? ==> v.error.ValueError?
  {
    match text
    case NotBase64(_) => Err(ValueError("Invalid base64-encoded string"))
    case Base64(sig) => Ok(Verify(s.key, sig, CanonicalPayload(r)))
  }

  /** A signature of one result verifies against another exactly when the
      two agree on the signed fields: a signed result verifies, and
      changing any signed field makes verification fail. */
  lemma SignThenVerify(s: ResultSigner, a: VerificationResult, b: VerificationResult)
    ensures VerifyResult(s, b, SignResult(s, a)) == Ok(SameSignedFields(a, b))
  {
    PayloadDeterminesFields(a, b);
  }

  /** Flipping the verdict of a signed result breaks its signature. */
  lemma FlippedVerdictFails(s: ResultSigner, r: VerificationResult)
    ensures VerifyResult(s, r, SignResult(s, r)) == Ok(true)
    ensures VerifyResult(s, r.(passed := !r.passed), SignResult(s, r)) == Ok(false)
  {
    SignThenVerify(s, r, r);
    SignThenVerify(s, r, r.(passed := !r.passed));
  }

  /** A signature made under another key is rejected. */
  lemma OtherKeyFails(s1: ResultSigner, s2: ResultSigner, r: VerificationResult)
    requires s1.key != s2.key
    ensures VerifyResult(s2, r, SignResult(s1, r)) == Ok(false)
  {
  }

  predicate AllPrintable(t: string)
  {
    forall k | 0 <= k < |t| :: Printable(t[k])
  }

  lemma PrintableConcat(x: string, y: string)
    requires AllPrintable(x) && AllPrintable(y)
    ensures AllPrintable(x + y)
  {
    assert forall k | |x| <= k < |x + y| :: (x + y)[k] == y[k - |x|];
  }

  /** Every character of a member's text is printable ASCII: escapes,
      digits and the letters of `true` and `false`. */
  lemma MemberPrintable(m: (string, Value))
    ensures AllPrintable(MemberText(m))
  {
    var q := Quote(m.0);
    PrintableConcat(['"'], Escape(m.0));
    PrintableConcat(['"'] + Escape(m.0), ['"']);
    var v := ValueText(m.1);
    assert AllPrintable(v) by {
      match m.1
      case JString(s) =>
        PrintableConcat(['"'], Escape(s));
        PrintableConcat(['"'] + Escape(s), ['"']);
      case JBool(b) =>
      case JMillis(_) =>
    }
    PrintableConcat(q, [':']);
    PrintableConcat(q + [':'], v);
  }

  lemma {:induction false} MembersPrintable(ms: seq<(string, Value)>)
    ensures AllPrintable(MembersText(ms))
    decreases |ms|
  {
    if ms != [] {
      MemberPrintable(ms[0]);
      if |ms| > 1 {
        MembersPrintable(ms[1..]);
        PrintableConcat(MemberText(ms[0]), [',']);
        PrintableConcat(MemberText(ms[0]) + [','], MembersText(ms[1..]));
      }
    }
  }

  /** The UTF-8 form of ASCII text is the text itself, one byte per character. */
  lemma {:induction false} EncodeAscii(t: string)
    requires forall k | 0 <= k < |t| :: t[k] as int < 0x80
    ensures |Encode(t)| == |t|
    ensures forall k | 0 <= k < |t| :: Encode(t)[k] as int == t[k] as int
  {
    if t != "" {
      EncodeAscii(t[1..]);
      assert Encode(t) == [t[0] as int as byte] + Encode(t[1..]);
    }
  }

  /** With `ensure_ascii` every payload byte is printable ASCII, one per
      character of the JSON text. */
  lemma PayloadIsAscii(r: VerificationResult)
    ensures var p, t := CanonicalPayload(r), ObjectText(PayloadFields(r));
      |p| == |t| && forall k | 0 <= k < |p| :: 0x20 <= p[k] as int <= 0x7e && p[k] as int == t[k] as int
  {
    ObjectAscii(PayloadFields(r));
  }

  /** Any compact object encodes to one printable byte per character. */
  lemma ObjectAscii(ms: seq<(string, Value)>)
    ensures var t := ObjectText(ms);
      |Encode(t)| == |t| && forall k | 0 <= k < |t| :: 0x20 <= Encode(t)[k] as int <= 0x7e && Encode(t)[k] as int == t[k] as int
  {
    var t := ObjectText(ms);
    MembersPrintable(ms);
    PrintableConcat(['{'], MembersText(ms));
    PrintableConcat(['{'] + MembersText(ms), ['}']);
    EncodeAscii(t);
  }
}
