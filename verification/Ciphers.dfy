/** The cryptographic primitives, as unknown functions. Nothing is assumed of them
    beyond what `Lawful` says. */
module Ciphers {
  import opened ByteStrings

  /** A 16-byte block cipher: `encrypt(key, block)` and its inverse. */
  datatype BlockCipher = BlockCipher(encrypt: (Bytes, Bytes) -> Bytes, decrypt: (Bytes, Bytes) -> Bytes) {
    ghost predicate Lawful() {
      && (forall key, block {:trigger encrypt(key, block)} :: |block| == 16 ==>
            |encrypt(key, block)| == 16 && decrypt(key, encrypt(key, block)) == block)
      && (forall key, block {:trigger decrypt(key, block)} :: |block| == 16 ==>
            |decrypt(key, block)| == 16 && encrypt(key, decrypt(key, block)) == block)
    }
  }

  /** AES-CCM with a tag of `n` bytes: `seal(key, nonce, aad, plaintext, n)` gives
      the ciphertext and its tag, `open(key, nonce, aad, ciphertext, tag, n)` the
      plaintext and whether the tag verifies. */
  datatype Ccm = Ccm(
    seal: (Bytes, Bytes, Bytes, Bytes, nat) -> (Bytes, Bytes),
    open: (Bytes, Bytes, Bytes, Bytes, Bytes, nat) -> (Bytes, bool))
  {
    ghost predicate Lawful() {
      forall key, nonce, aad, plaintext, n {:trigger seal(key, nonce, aad, plaintext, n)} ::
        var (c, tag) := seal(key, nonce, aad, plaintext, n);
        |c| == |plaintext| && |tag| == n && open(key, nonce, aad, c, tag, n) == (plaintext, true)
    }
  }

  /** AES, CCM, AES-CMAC (16-byte output) and HMAC-SHA256 (32-byte output). */
  datatype Primitives = Primitives(
    aes: BlockCipher, ccm: Ccm, cmac: (Bytes, Bytes) -> Bytes, hmac: (Bytes, Bytes) -> Bytes)
  {
    ghost predicate Lawful() {
      && aes.Lawful() && ccm.Lawful()
      && (forall key, message :: |cmac(key, message)| == 16)
      && (forall key, message :: |hmac(key, message)| == 32)
    }
  }

  /** The ciphertext verifies under no other key and nonce. */
  ghost predicate Unforged(ccm: Ccm, key: Bytes, nonce: Bytes, aad: Bytes, ciphertext: Bytes, tag: Bytes, n: nat) {
    forall key', nonce' :: ccm.open(key', nonce', aad, ciphertext, tag, n).1 ==> key' == key && nonce' == nonce
  }
}
