/** The cryptographic primitives the container uses, as uninterpreted parameters.

    Twofish, SHA-256 (FIPS 180-4) and HMAC-SHA256 (RFC 2104) are foreign code: the model
    knows them only as total functions. The single fact assumed of the block cipher is that
    decryption under a key undoes encryption under the same key; it is the predicate
    `Inverts`, stated as a precondition of every lemma that needs it. */
module Primitives {
  import opened Bytes

  /** A 16-byte block cipher keyed by an arbitrary byte string (`twofish.NewCipher(key)`). */
  datatype BlockCipher = BlockCipher(
    encrypt: (seq<bv8>, Bytes16) -> Bytes16,
    decrypt: (seq<bv8>, Bytes16) -> Bytes16)

  ghost predicate Inverts(c: BlockCipher)
  {
    forall key, x :: c.decrypt(key, c.encrypt(key, x)) == x
  }

  /** The primitive suite of the format: the block cipher, SHA-256 and HMAC-SHA256 keyed by its
      first argument over the message in its second. */
  datatype Suite = Suite(
    cipher: BlockCipher,
    hash: seq<bv8> -> Bytes32,
    mac: (seq<bv8>, seq<bv8>) -> Bytes32)

  ghost predicate Valid(s: Suite)
  {
    Inverts(s.cipher)
  }
}
