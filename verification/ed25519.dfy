/** Ed25519 (RFC 8032) as an ideal signature scheme. A signature made with a
    key pair over a message verifies under that pair for exactly that
    message; every other signature is rejected. Signing is deterministic
    (section 5.1.6 of RFC 8032), so signing twice gives the same bytes. Key
    generation, PEM files and the curve arithmetic are not modelled. */
module Ed25519 {
  import opened Utf8

  /** A key pair, named by its private key; the public key is derived. */
  datatype KeyPair = KeyPair(secret: nat)

  /** Signature bytes: those produced by signing a message with a key, or
      bytes that are a valid signature of nothing. */
  datatype Signature = Signed(signer: nat, message: seq<byte>) | Junk(bytes: seq<byte>)

  /** The base64 text a signature travels as: text that decodes to
      signature bytes, or text that is not base64 at all. */
  datatype SignatureText = Base64(sig: Signature) | NotBase64(text: string)

  /** The empty text a result carries before it is signed; it decodes to
      no bytes. */
  const Unsigned: SignatureText := Base64(Junk([]))

  function Sign(k: KeyPair, message: seq<byte>): (s: Signature)
    ensures s.Signed? && s.signer == k.secret
  {
    Signed(k.secret, message)
  }

  function Verify(k: KeyPair, s: Signature, message: seq<byte>): bool
  {
    s.Signed? && s.signer == k.secret && s.message == message
  }

  /** Correctness and unforgeability of the ideal scheme: a signature
      verifies under a key and a message exactly when it is that key's
      signature of that message. */
  lemma VerifyExactlySigned(k: KeyPair, s: Signature, message: seq<byte>)
    ensures Verify(k, s, message) <==> s == Sign(k, message)
  {
  }
}
