/** The signature primitive the core relies on, kept abstract.
    Keys and signatures are the raw byte strings the library wraps; signing,
    verification and the two byte-length checks performed by `from_slice` are
    uninterpreted functions supplied as a `Scheme`. */
module Crypto {
  import opened Types
  import opened Wrappers

  datatype PublicKey = PublicKey(bytes: Bytes)

  datatype SecretKey = SecretKey(bytes: Bytes)

  datatype Signature = Signature(bytes: Bytes)

  /** `sign` and `verify_signature` of the signature library, together with
      the acceptance tests of `PublicKey::from_slice` and `Signature::from_slice`. */
  datatype Scheme = Scheme(
    sign: (SecretKey, Bytes) -> Signature,
    verify: (PublicKey, Bytes, Signature) -> bool,
    publicKeyFits: Bytes -> bool,
    signatureFits: Bytes -> bool)

  /** `PublicKey::from_slice`: fails on a malformed slice, otherwise wraps the same bytes. */
  function PublicKeyFromSlice(cs: Scheme, b: Bytes): Option<PublicKey> {
    if cs.publicKeyFits(b) then Some(PublicKey(b)) else None
  }

  /** `Signature::from_slice`: fails on a malformed slice, otherwise wraps the same bytes. */
  function SignatureFromSlice(cs: Scheme, b: Bytes): Option<Signature> {
    if cs.signatureFits(b) then Some(Signature(b)) else None
  }

  /** Every signature the scheme produces is accepted again by `Signature::from_slice`
      (the library's signatures have the fixed length the decoder checks). */
  ghost predicate SignaturesDecode(cs: Scheme) {
    forall sk: SecretKey, m: Bytes :: cs.signatureFits(cs.sign(sk, m).bytes)
  }
}
