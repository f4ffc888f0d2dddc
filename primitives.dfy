/** The two foreign primitives the program links against, kept abstract.

    SHA-1 (FIPS 180-4, the `sha1` crate) and the AES-128 block permutation
    (FIPS 197, the `aes` crate) are passed in as function values. All the
    model assumes of them is what `Valid()` states: a digest is 20 bytes; a
    block function maps 16-byte blocks to 16-byte blocks under a 16-byte key;
    and deciphering undoes enciphering. */
module Primitives {
  import opened Bytes

  const DIGEST_SIZE: nat := 20
  const BLOCK_SIZE: nat := 16
  const KEY_SIZE: nat := 16

  datatype Sha1 = Sha1(digest: Bytes -> Bytes) {
    ghost predicate Valid() {
      forall m :: |digest(m)| == DIGEST_SIZE
    }
  }

  datatype Aes128 = Aes128(encryptBlock: (Bytes, Bytes) -> Bytes, decryptBlock: (Bytes, Bytes) -> Bytes) {
    ghost predicate Valid() {
      && (forall key, block {:trigger encryptBlock(key, block)} | |key| == KEY_SIZE && |block| == BLOCK_SIZE ::
            |encryptBlock(key, block)| == BLOCK_SIZE)
      && (forall key, block {:trigger decryptBlock(key, block)} | |key| == KEY_SIZE && |block| == BLOCK_SIZE ::
            |decryptBlock(key, block)| == BLOCK_SIZE)
      // triggered on enciphering only, so that deciphering a block does not feed the rule again
      && (forall key, block {:trigger encryptBlock(key, block)} | |key| == KEY_SIZE && |block| == BLOCK_SIZE ::
            decryptBlock(key, encryptBlock(key, block)) == block)
    }
  }
}
