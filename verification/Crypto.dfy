/** The cryptographic primitives, as parameters: nothing is assumed of them beyond their types. */
module Crypto {
  import opened Bytes

  /** SHA-256; ed25519 verification (a malformed key verifies nothing), key derivation and
      signing; and the peer id libp2p derives from a public key, when the key is well formed. */
  datatype Crypto = Crypto(
    sha256: bytes -> Key32,
    verifies: (Key32, bytes, Sig64) -> bool,
    publicKey: Key32 -> Key32,
    sign: (Key32, bytes) -> Sig64,
    peerId: Key32 -> Option<Text>)

  /** What signing is for: every signature made with a secret verifies under its public key. */
  ghost predicate SignaturesVerify(c: Crypto) {
    forall secret, message :: c.verifies(c.publicKey(secret), message, c.sign(secret, message))
  }
}
