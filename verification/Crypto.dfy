// The cryptographic primitives the backup pipeline calls, as function values
// with explicit hypotheses: AES-256-GCM and SHA-256 themselves are library code.
module Crypto {
  import opened Bytes

  // seal and open take (key, nonce, data, additional data).
  datatype Suite = Suite(
    seal: (bytes, bytes, bytes, bytes) -> bytes,
    open: (bytes, bytes, bytes, bytes) -> Option<bytes>,
    sha256: bytes -> bytes)

  // One encryption under a given key.
  datatype Sealing = Sealing(nonce: bytes, plaintext: bytes, aad: bytes)

  // GCM ciphertexts carry a 16-byte tag, whatever was encrypted.
  ghost predicate TagLength(s: Suite) {
    forall k: bytes, n: bytes, p: bytes, a: bytes :: |s.seal(k, n, p, a)| == |p| + 16
  }

  // What was encrypted decrypts to itself.
  ghost predicate Opens(s: Suite, key: bytes, log: iset<Sealing>) {
    forall e: Sealing :: e in log ==>
      s.open(key, e.nonce, s.seal(key, e.nonce, e.plaintext, e.aad), e.aad) == Some(e.plaintext)
  }

  // Ideal authenticity: decryption succeeds only for a logged encryption.
  ghost predicate Unforgeable(s: Suite, key: bytes, log: iset<Sealing>) {
    forall n: bytes, c: bytes, a: bytes :: s.open(key, n, c, a).Some? ==>
      Sealing(n, s.open(key, n, c, a).value, a) in log
  }

  // No logged nonce was used for two different encryptions.
  ghost predicate NoncesUnique(log: iset<Sealing>) {
    forall d: Sealing, e: Sealing :: d in log && e in log && d.nonce == e.nonce ==> d == e
  }
}
